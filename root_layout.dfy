/** The root layout (src/app/components/root-layout.tsx): it owns whether the command
    palette is open, answers the Ctrl/Cmd+K and Escape shortcuts, and runs what the palette
    asks for by navigating and closing it. The current location stands for react-router's
    `navigate`. */
module RootLayout {
  import opened Wrappers
  import opened App
  import opened Slug
  import opened MockStore
  import opened Routes
  import CommandPalette

  /** A key press as the window listeners see it. */
  datatype KeyEvent = KeyEvent(key: string, ctrlKey: bool, metaKey: bool)

  /** The shortcut that opens the palette: `k` with Ctrl or Cmd held. */
  predicate IsOpenShortcut(e: KeyEvent) {
    (e.metaKey || e.ctrlKey) && e.key == "k"
  }

  /** The layout's own key handler, as a change of the open flag: the shortcut opens the
      palette whether or not it is open; otherwise Escape closes it if it is open; any other key
      leaves the flag alone. */
  function ShortcutOpen(open: bool, e: KeyEvent): (r: bool)
    ensures IsOpenShortcut(e) ==> r
    ensures !IsOpenShortcut(e) && e.key == "Escape" ==> !r
    ensures !IsOpenShortcut(e) && e.key != "Escape" ==> r == open
  {
    if IsOpenShortcut(e) then true
    else if e.key == "Escape" && open then false
    else open
  }

  /** The shortcut is not a toggle: pressing it twice is pressing it once. */
  lemma OpenShortcutIdempotent(open: bool, e: KeyEvent)
    requires IsOpenShortcut(e)
    ensures ShortcutOpen(ShortcutOpen(open, e), e) == ShortcutOpen(open, e) == true
  {
  }

  /** The `routes` table of `onNavigate`: the four page names and their paths. */
  function PagePath(page: string): (r: Option<string>)
    ensures r.Some? <==> page in {"home", "resume", "certifications", "contact"}
  {
    if page == "home" then Some("/")
    else if page == "resume" then Some("/resume")
    else if page == "certifications" then Some("/certifications")
    else if page == "contact" then Some("/contact")
    else None
  }

  /** `routes[page] || '/'`: where `onNavigate(page)` goes; every other name goes home. */
  function NavigatePath(page: string): (r: string)
    ensures r in {"/", "/resume", "/certifications", "/contact"}
    ensures PagePath(page).Some? ==> r == PagePath(page).value
    ensures PagePath(page).None? ==> r == "/"
  {
    PagePath(page).GetOr("/")
  }

  /** Every page the palette offers leads to the page of that name: the target path renders
      the matching screen, and any other name lands on the home page. */
  lemma NavigatePathRenders(posts: seq<BlogPost>, page: string)
    ensures page == "home" ==> Render(posts, NavigatePath(page)) == HomePage
    ensures page == "resume" ==> Render(posts, NavigatePath(page)) == ResumePage
    ensures page == "certifications" ==> Render(posts, NavigatePath(page)) == CertificationsPage
    ensures page == "contact" ==> Render(posts, NavigatePath(page)) == ContactPage
    ensures page !in {"home", "resume", "certifications", "contact"} ==>
              Render(posts, NavigatePath(page)) == HomePage
  {
    RenderRoot(posts);
    if page == "resume" {
      assert "/resume" == "/" + "resume";
      RenderOneSegment(posts, "resume");
    } else if page == "certifications" {
      assert "/certifications" == "/" + "certifications";
      RenderOneSegment(posts, "certifications");
    } else if page == "contact" {
      assert "/contact" == "/" + "contact";
      RenderOneSegment(posts, "contact");
    }
  }

  /** Choosing a mock article in the palette shows that article. */
  lemma PostPathShowsMockPost(i: int)
    requires 0 <= i < |MockBlogPosts|
    ensures Render(MockBlogPosts, PostPath(MockBlogPosts[i])) == PostPage(MockBlogPosts[i])
  {
    MockPostsReachable(i);
  }

  /** The layout: whether the palette is open, where the router is, and the palette itself. */
  class Layout {
    var paletteOpen: bool
    var location: string
    const palette: CommandPalette.Palette

    /** The layout's invariant is the palette's. */
    predicate Valid()
      reads this, palette
    {
      palette.Valid()
    }

    constructor(posts: seq<BlogPost>, location: string)
      ensures !paletteOpen && this.location == location
      ensures fresh(palette) && palette.posts == posts
      ensures palette.query == "" && palette.selectedIndex == CommandPalette.At(0)
      ensures Valid()
    {
      paletteOpen := false;
      this.location := location;
      palette := new CommandPalette.Palette(posts);
    }

    /** `setIsCommandPaletteOpen(open)`, with the palette's effect on `isOpen`: becoming
        open clears the query and puts the cursor on the first entry. */
    method SetOpen(open: bool)
      requires Valid()
      modifies this, palette
      ensures paletteOpen == open && location == old(location) && Valid()
      ensures open && !old(paletteOpen) ==>
                palette.query == "" && palette.selectedIndex == CommandPalette.At(0)
      ensures !(open && !old(paletteOpen)) ==>
                palette.query == old(palette.query) && palette.selectedIndex == old(palette.selectedIndex)
    {
      if open && !paletteOpen {
        palette.Opened();
      }
      paletteOpen := open;
    }

    /** `onCommandOpen`, the one capability the child views get: it can only open the
        palette. */
    method CommandOpen()
      requires Valid()
      modifies this, palette
      ensures paletteOpen && location == old(location) && Valid()
      ensures !old(paletteOpen) ==> palette.query == "" && palette.selectedIndex == CommandPalette.At(0)
      ensures old(paletteOpen) ==>
                palette.query == old(palette.query) && palette.selectedIndex == old(palette.selectedIndex)
    {
      SetOpen(true);
    }

    /** `onClose`: the palette closes and nothing else changes. */
    method Close()
      requires Valid()
      modifies this, palette
      ensures !paletteOpen && location == old(location) && Valid()
      ensures palette.query == old(palette.query) && palette.selectedIndex == old(palette.selectedIndex)
    {
      SetOpen(false);
    }

    /** `onNavigate(page)`: go to the page's path, then close. */
    method Navigate(page: string)
      requires Valid()
      modifies this, palette
      ensures location == NavigatePath(page) && !paletteOpen && Valid()
      ensures palette.query == old(palette.query) && palette.selectedIndex == old(palette.selectedIndex)
    {
      location := NavigatePath(page);
      SetOpen(false);
    }

    /** `onPostSelect(post)`: go to the article's page, then close. */
    method PostSelect(post: BlogPost)
      requires Valid()
      modifies this, palette
      ensures location == PostPath(post) && !paletteOpen && Valid()
      ensures palette.query == old(palette.query) && palette.selectedIndex == old(palette.selectedIndex)
    {
      location := PostPath(post);
      SetOpen(false);
    }

    /** Runs an entry's action: its callback, then `onClose`. */
    method Run(a: CommandPalette.Action)
      requires Valid()
      modifies this, palette
      ensures !paletteOpen && Valid()
      ensures a.Navigate? ==> location == NavigatePath(a.page)
      ensures a.SelectPost? ==> location == PostPath(a.post)
      ensures palette.query == old(palette.query) && palette.selectedIndex == old(palette.selectedIndex)
    {
      var calls := CommandPalette.Calls(a);
      match calls[0] {
        case OnNavigate(page) => Navigate(page);
        case OnPostSelect(post) => PostSelect(post);
      }
      Close();
    }

    /** One key press, seen by both window listeners with the open flag as it was before the
        press: the layout's shortcut handler, and the palette's handler, whose Enter runs the
        highlighted entry. */
    method KeyDown(e: KeyEvent) returns (ran: Option<CommandPalette.Action>)
      requires Valid()
      modifies this, palette
      ensures Valid()
      ensures ran.None? ==> paletteOpen == ShortcutOpen(old(paletteOpen), e) && location == old(location)
      ensures ran.Some? ==> old(paletteOpen) && e.key == "Enter" && !paletteOpen
      ensures ran.Some? && ran.value.Navigate? ==> location == NavigatePath(ran.value.page)
      ensures ran.Some? && ran.value.SelectPost? ==> location == PostPath(ran.value.post)
      ensures !old(paletteOpen) && !IsOpenShortcut(e) ==>
                ran.None? && !paletteOpen
                && palette.query == old(palette.query) && palette.selectedIndex == old(palette.selectedIndex)
      ensures !old(paletteOpen) && IsOpenShortcut(e) ==>
                ran.None? && paletteOpen && location == old(location)
                && palette.query == "" && palette.selectedIndex == CommandPalette.At(0)
      ensures old(paletteOpen) ==> palette.query == old(palette.query)
      ensures old(paletteOpen) && e.key == "ArrowDown" ==>
                ran.None? && palette.selectedIndex == CommandPalette.NextIndex(old(palette.selectedIndex), |old(palette.Results())|)
      ensures old(paletteOpen) && e.key == "ArrowUp" ==>
                ran.None? && palette.selectedIndex == CommandPalette.PrevIndex(old(palette.selectedIndex), |old(palette.Results())|)
      ensures old(paletteOpen) && e.key == "Enter" ==>
                ran == CommandPalette.EntryAt(old(palette.Results()), old(palette.selectedIndex))
                && palette.selectedIndex == old(palette.selectedIndex)
      ensures old(paletteOpen) && e.key != "ArrowDown" && e.key != "ArrowUp" && e.key != "Enter" ==>
                ran.None? && palette.selectedIndex == old(palette.selectedIndex)
    {
      var wasOpen := paletteOpen;
      SetOpen(ShortcutOpen(paletteOpen, e));
      ran := palette.KeyDown(e.key, wasOpen);
      if ran.Some? {
        Run(ran.value);
      }
    }
  }
}
