# personal-blog: a Dafny model of the blog's views and routing

This project models the core of a personal blog written in React and TypeScript. The core covers:

- The article record and the constant store of two mock articles.
- `generateSlug`, which turns a title into a URL slug, and `findPostBySlug`.
- The router's five child routes. The article page either shows the article found under the URL's slug or redirects home.
- The article list: the search and category filter, the category buttons, the card links and keys, and the author initials.
- The command palette: its entries, the query filter, the eight-entry cap, the arrow-key cursor with JavaScript's `%`, Enter, and the effects that reset the cursor.
- The root layout: the Ctrl/Cmd+K and Escape shortcuts, and the navigation the palette asks for.
- The contact form: the e-mail regular expression, the validation of the three fields, touched fields, and the submit flow.
- The site header: which navigation item is highlighted for a path, and the mobile menu flag.
- The article page: heading anchor ids, the code-block renderer, the initials, the address handed to the share popover, and the code copy button.
- The share popover: the Twitter and LinkedIn links built with `encodeURIComponent`, and the `open` and `copied` flags.

Each source file has its own module.

- Pure code is modelled as datatypes, functions and lemmas: slugs, filters, validation, routing, link building and `encodeURIComponent`.
- Component state that handlers change in place is modelled as a class whose methods state the whole new state: `Palette`, `Layout`, `ContactForm`, `Header`, `CopyButton` and `Popover`.
- Asynchronous parts are split at the `await`. What the awaited call returned (the `fetch` outcome, the result of `copyToClipboard`) and timers firing become parameters or events.

Every operation has a partner it is proved against:

- `encodeURIComponent` has a decoder. The two make a round trip, and a share link reads back as its target and its parameters.
- A slug is characterised by its shape and by the alphanumerics it keeps. `generateSlug` is idempotent.
- The router is proved to show exactly the five path shapes, and a card link or palette choice reaches its article.
- The e-mail regular expression is read two ways, and the two readings are proved to agree.
- The palette cursor is proved to stay in range, to wrap around, and to come back after one full circle.
- Popover and button flags are folds over event sequences, with lemmas about what every run can reach.

## Model

| member | source | states |
|---|---|---|
| Wrappers.Option.GetOr | src/app/routes.tsx:245 | `x \|\| fallback` and `x ?? fallback` on an optional value: the value when present, the fallback otherwise. |
| Strings.LowerChar | src/app/utils/slug.ts:3 | `toLowerCase` on one character maps `A`-`Z` to `a`-`z` and keeps every other character. |
| Strings.ToLower | src/app/utils/slug.ts:3 | The lower-cased string has the same length, is lower-cased position by position, and holds no upper-case letter. |
| Strings.ToLowerIdempotent | src/app/components/blog-list-view.tsx:44-47 | Lower-casing twice equals lower-casing once. |
| Strings.ToLowerOfLower | src/app/components/blog-post-view.tsx:144 | A string without upper-case letters is its own lower-case form. |
| Strings.ToLowerAppend | src/app/utils/slug.ts:3 | Lower-casing distributes over concatenation. |
| Strings.TrimStart | src/app/components/contact-view.tsx:25-27 | Drops the leading whitespace; what it keeps and drops is stated by `TrimStartSpec`. |
| Strings.TrimEnd | src/app/components/contact-view.tsx:25-27 | Drops the trailing whitespace; what it keeps and drops is stated by `TrimEndSpec`. |
| Strings.Trim | src/app/components/contact-view.tsx:25-27 | `String.prototype.trim`; its result is characterised by `TrimSpec` and its emptiness by `TrimEmptyIff`. |
| Strings.TrimStartSpec | src/app/components/contact-view.tsx:25-27 | The leading-trim result is a suffix that does not start with whitespace, and only whitespace was dropped. |
| Strings.TrimStartDropsRun | src/app/components/blog-post-view.tsx:144 | A run of whitespace before a non-whitespace start is dropped entirely. |
| Strings.TrimEndSpec | src/app/components/contact-view.tsx:25-27 | The trailing-trim result is a prefix that does not end with whitespace, and only whitespace was dropped. |
| Strings.TrimSpec | src/app/components/contact-view.tsx:25-27 | `trim` gives a slice of the input that neither starts nor ends with whitespace, with only whitespace on either side of it. |
| Strings.TrimEmptyIff | src/app/components/command-palette.tsx:105 | `s.trim() === ""` holds exactly when every character is whitespace. |
| Strings.EmptyIsSubstring | src/app/components/blog-list-view.tsx:44 | Every string includes the empty string. |
| Strings.IsSubstringOfSelf | src/app/components/blog-list-view.tsx:44 | A string includes itself. |
| Strings.StartsWithIsSubstring | src/app/components/blog-list-view.tsx:51 | A prefix is also a substring. |
| Strings.IsSubstring | src/app/components/blog-list-view.tsx:44 | `includes`: some position of the haystack starts a copy of the needle; `EmptyIsSubstring` and `IsSubstringOfSelf` are proved of it. |
| Strings.StartsWith | src/app/components/blog-list-view.tsx:51 | `startsWith`: the string begins with the prefix; `StartsWithIsSubstring` relates it to `includes`. |
| Strings.Utf16Length | src/app/components/contact-view.tsx:30 | `.length` counts UTF-16 code units: at least one and at most two per character. |
| Strings.Utf16LengthIsLength | src/app/components/contact-view.tsx:30 | `.length` equals the number of characters exactly when no character lies outside the Basic Multilingual Plane. |
| Strings.BeforeFirst | src/app/components/blog-list-view.tsx:36 | `split(sep)[0]` is a prefix that contains no occurrence of `sep`, and it is the whole string or is followed by `sep`. |
| Strings.SplitOn | src/app/components/blog-list-view.tsx:188 | `split(c)` gives at least one piece, no piece holds `c`, and joining the pieces with `c` gives back the string. |
| Strings.SplitOnWithoutSeparator | src/app/components/blog-list-view.tsx:188 | A string without the separator splits into itself alone. |
| Strings.SplitOnAfterPiece | src/app/components/blog-list-view.tsx:188 | Splitting `w + sep + s` gives `w` followed by the pieces of `s`. |
| Sequences.SubsequenceBounds | src/app/components/blog-list-view.tsx:42-54 | A filtered list is no longer than its source and holds only elements of it. |
| Sequences.Take | src/app/components/command-palette.tsx:106 | `slice(0, n)` gives the first `min(n, length)` elements, unchanged. |
| Sequences.PrefixOfSubsequence | src/app/components/command-palette.tsx:107-113 | Slicing a filtered list keeps it a subsequence of the original. |
| Sequences.SubsequenceOfSelf | src/app/components/command-palette.tsx:106 | Every list is a subsequence of itself. |
| Sequences.FirstIndex | src/app/components/blog-list-view.tsx:33-40 | Gives the position of the first occurrence of an element. |
| Sequences.Distinct | src/app/components/blog-list-view.tsx:33-40 | `Array.from(new Set(s))` has no duplicates and holds exactly the elements of `s`. |
| Sequences.FirstIndexAppend | src/app/components/blog-list-view.tsx:33-40 | Appending does not move the first occurrence of an element already present. |
| Sequences.DistinctKeepsFirstOccurrenceOrder | src/app/components/blog-list-view.tsx:33-40 | The set keeps its elements in the order they first occur. |
| UriEncoding.Utf8 | src/app/components/share-popover.tsx:42 | A scalar value encodes to one to four UTF-8 bytes, and to one byte exactly below 0x80. |
| UriEncoding.HexDigit | src/app/components/share-popover.tsx:42 | Escapes use upper-case hexadecimal digits. |
| UriEncoding.PercentByte | src/app/components/share-popover.tsx:42 | A byte becomes a three-character escape that starts with `%`. |
| UriEncoding.PercentBytes | src/app/components/share-popover.tsx:42 | A run of bytes becomes three characters per byte. |
| UriEncoding.EncodeChar | src/app/components/share-popover.tsx:42 | An unreserved character is kept. Any other character becomes the `%` escapes of its UTF-8 bytes. |
| UriEncoding.Encode | src/app/components/share-popover.tsx:42 | `encodeURIComponent` never shortens its input and leaves only unreserved characters and `%`. |
| UriEncoding.PercentBytesAlphabet | src/app/components/share-popover.tsx:42 | Escapes use only `%` and hexadecimal digits. |
| UriEncoding.EncodedChars | src/app/components/share-popover.tsx:42 | Every character of an encoded component is unreserved or `%`. |
| UriEncoding.NoQueryDelimiters | src/app/components/share-popover.tsx:42 | An encoded component holds none of `& = ? # / :` and no space, so it cannot end or split its query parameter. |
| UriEncoding.EncodeUnreserved | src/app/components/share-popover.tsx:47 | A string of unreserved characters encodes to itself. |
| UriEncoding.HexValue | src/app/components/share-popover.tsx:42 | A hexadecimal digit of either case reads as a value below 16. |
| UriEncoding.Scalar | src/app/components/share-popover.tsx:42 | A decoded code point is accepted exactly when it is a Unicode scalar value. |
| UriEncoding.DecodeEscape | src/app/components/share-popover.tsx:42 | A decoded escape sequence consumes at least one escape and never more than the input. |
| UriEncoding.DecodeEscapeOfChar | src/app/components/share-popover.tsx:42 | The escapes of a character's UTF-8 bytes decode to that character, consuming exactly them. |
| UriEncoding.DecodeEncode | src/app/components/share-popover.tsx:42 | Decoding undoes encoding: `decodeURIComponent(encodeURIComponent(s)) === s` for every string. |
| UriEncoding.EncodeInjective | src/app/components/share-popover.tsx:47 | Different strings never share an encoding. |
| Slug.DropSeparators | src/app/utils/slug.ts:4 | Drops exactly the leading run of characters outside `[a-z0-9]`. |
| Slug.CollapseSeparators | src/app/utils/slug.ts:4 | `replace(/[^a-z0-9]+/g, "-")`; its shape is stated by `CollapseSeparatorsShape`, the alphanumerics it keeps by `CollapseSeparatorsKeepsAlnum`, and its fixed points by `CollapseSeparatorsFixpoint`. |
| Slug.CollapseSeparatorsShape | src/app/utils/slug.ts:4 | After `replace(/[^a-z0-9]+/g, "-")`:<br>• only `[a-z0-9-]` remains and there is no `--`;<br>• the result is empty only for the empty string;<br>• its first character is the input's first alphanumeric character, or `-` when the input starts with a separator. |
| Slug.CollapseSeparatorsKeepsAlnum | src/app/utils/slug.ts:4 | Deleting the hyphens from the collapsed string gives exactly the input's alphanumerics, in order. |
| Slug.CollapseAlnumPrefix | src/app/utils/slug.ts:4 | A word of `[a-z0-9]` is copied unchanged, and collapsing goes on after it. |
| Slug.CollapseSeparatorRun | src/app/utils/slug.ts:4 | A maximal run of separators becomes one hyphen. |
| Slug.CollapseWordThenGap | src/app/utils/slug.ts:4 | A word followed by a separator run collapses to the word and one hyphen. |
| Slug.LeadingHyphens | src/app/utils/slug.ts:5 | Counts exactly the leading hyphens. |
| Slug.TrailingHyphens | src/app/utils/slug.ts:5 | Counts exactly the trailing hyphens. |
| Slug.TrimHyphens | src/app/utils/slug.ts:5 | `replace(/^-+\|-+$/g, "")` leaves a string that neither starts nor ends with `-`. |
| Slug.TrimHyphensKeepsPrefix | src/app/utils/slug.ts:5 | When the string does not start with `-`, trimming keeps every character up to any non-hyphen. |
| Slug.TrimHyphensWellFormed | src/app/utils/slug.ts:5 | Trimming a string over `[a-z0-9-]` without `--` gives a well-formed slug. |
| Slug.TrimHyphensKeepsContent | src/app/utils/slug.ts:5 | Trimming deletes hyphens only. |
| Slug.GenerateSlugFirstChar | src/app/utils/slug.ts:1-6 | A title whose first character lower-cases into `[a-z0-9]` has a slug that starts with that character. |
| Slug.GenerateSlugShape | src/app/utils/slug.ts:1-6 | Every slug:<br>• uses only `[a-z0-9-]`;<br>• has no `--` and no hyphen at either end;<br>• without its hyphens, is exactly the lower-cased title's alphanumerics. |
| Slug.AlnumOnlyEmptyIff | src/app/utils/slug.ts:4 | A string has no alphanumerics exactly when every character is a separator. |
| Slug.GenerateSlugEmptyIff | src/app/utils/slug.ts:1-6 | The slug is empty exactly when the lower-cased title has no character in `[a-z0-9]`. |
| Slug.CollapseSeparatorsFixpoint | src/app/utils/slug.ts:4 | Collapsing leaves a string over `[a-z0-9-]` without `--` unchanged. |
| Slug.WellFormedSlugFixpoint | src/app/utils/slug.ts:1-6 | A well-formed slug is its own slug. |
| Slug.GenerateSlugIdempotent | src/app/utils/slug.ts:1-6 | `generateSlug(generateSlug(t)) === generateSlug(t)`. |
| Slug.GenerateSlug | src/app/utils/slug.ts:1-6 | `generateSlug`: lower-case, collapse, trim. What every slug looks like is stated by `GenerateSlugShape`, `GenerateSlugEmptyIff` and `GenerateSlugFirstChar`, and idempotence by `GenerateSlugIdempotent`. |
| Slug.TitleSlug | src/app/utils/slug.ts:9 | The key `findPostBySlug` compares: the slug of the title, never the stored `slug`. `FindPostBySlugFindsEveryPost` and `FindPostBySlugExact` are stated with it. |
| Slug.FindFirst | src/app/utils/slug.ts:9 | `find` returns the first element whose key matches, or nothing exactly when no key matches. |
| Slug.FindPostBySlug | src/app/utils/slug.ts:8-10 | Returns the first post whose title slugs to the slug, or `undefined` exactly when none does. The stored `slug` field is never read. |
| Slug.FindPostBySlugFindsEveryPost | src/app/utils/slug.ts:8-10 | Every post's own title slug finds a post with that same title slug. |
| Slug.FindPostBySlugExact | src/app/utils/slug.ts:8-10 | When title slugs are distinct, a post's own slug finds exactly that post. |
| MockStore.TitleSlugsStart | src/app/routes.tsx:18 | The two titles slug to strings that start with `a` and with `i`. |
| MockStore.SlugCharAfterFirstWord | src/app/utils/slug.ts:1-6 | Where a ten-character word, a separator and a word with `n` second meet, the slug has `n` at index 12. |
| MockStore.AutoMapperStoredSlugDiffers | src/app/routes.tsx:18 | The first article's generated slug (`automapper-and-…`) differs from its stored slug at index 12. |
| MockStore.SlugLongerThanThreeWords | src/app/utils/slug.ts:1-6 | A title whose first three words are followed by a further word has a slug longer than 26 characters. |
| MockStore.AlgoObserverStoredSlugDiffers | src/app/routes.tsx:160 | The second article's generated slug is longer than its 25-character stored slug. |
| MockStore.StoredSlugsAreSegments | src/app/routes.tsx:156 | Both stored slugs are non-empty and hold no `/`. |
| MockStore.MockIdsCollide | src/app/routes.tsx:17 | As written, both mock articles have `id` 1. |
| MockStore.NumberedBlogPostsDistinct | src/app/routes.tsx:159 | The store with the second article numbered 2 has distinct ids and is otherwise the same articles. |
| MockStore.MockSlugsDistinct | src/app/routes.tsx:15-238 | The two titles have distinct slugs. |
| MockStore.StoredSlugsUnused | src/app/routes.tsx:15-238 | No stored slug is the generated slug of either title. |
| Routes.PathSegments | src/app/routes.tsx:283-310 | A path has segments exactly when it starts with `/`. |
| Routes.ChildrenDisjoint | src/app/routes.tsx:287-308 | No list of segments matches two child routes. |
| Routes.MatchRoute | src/app/routes.tsx:287-308 | Returns the child whose pattern matches, or none exactly when no child matches. |
| Routes.Pattern | src/app/routes.tsx:283-310 | Each child's `path`: none for the index, `blog/:slug`, `resume`, `certifications` and `contact`. `ChildrenDisjoint` proves no path matches two of them, and `RenderOnlyFiveShapes` that these are the only shapes that show anything. |
| Routes.RouteScreen | src/app/routes.tsx:283-310 | Each child's `Component`: `RenderRoot`, `RenderBlogPath` and `RenderOneSegment` state the screen each path gets, and `BlogPostPage` the article page. |
| Routes.BlogPostPage | src/app/routes.tsx:241-256 | Shows an article exactly when some title slugs to `slug \|\| ""`. The article shown is the one `findPostBySlug` returns, the first with that slug. Otherwise it redirects to `/`. |
| Routes.RenderSegments | src/app/routes.tsx:283-310 | Any article shown comes from the store. |
| Routes.Render | src/app/routes.tsx:283-310 | Any article shown for a path comes from the store. |
| Routes.BlogPathSegments | src/app/routes.tsx:293 | `/blog/<s>` splits into `blog` and `s`. |
| Routes.MatchRouteIsOnlyMatch | src/app/routes.tsx:287-308 | The child that matches is the child selected. |
| Routes.RenderBlogPath | src/app/routes.tsx:293-294 | `/blog/<s>` with a non-empty `s` shows the article page for `s`. |
| Routes.RenderRoot | src/app/routes.tsx:288-291 | `/` shows the home page. |
| Routes.OneSegmentPath | src/app/routes.tsx:296-307 | `/<w>` has the single segment `w`. |
| Routes.MatchOneSegment | src/app/routes.tsx:296-307 | One segment selects resume, certifications or contact by name, and nothing else. |
| Routes.RenderOneSegment | src/app/routes.tsx:296-307 | A one-segment path shows the page of that name, and shows nothing exactly when it names none of them. |
| Routes.MatchRouteKnown | src/app/routes.tsx:287-308 | A match implies one of the five segment shapes. |
| Routes.PathSegmentsRoundTrip | src/app/routes.tsx:283-310 | Joining a path's segments back after a leading `/` gives the path. |
| Routes.RenderOnlyFiveShapes | src/app/routes.tsx:283-310 | Every path that shows something is `/`, `/resume`, `/certifications`, `/contact` or `/blog/<non-empty>`. |
| Routes.SlugHasNoSlash | src/app/utils/slug.ts:1-6 | A generated slug never holds `/`. |
| Routes.MockPostsReachable | src/app/routes.tsx:241-256 | Each mock article is shown at `/blog/` followed by its title's slug. |
| Routes.StoredSlugsRedirect | src/app/routes.tsx:245-252 | `/blog/` followed by a stored slug redirects home. |
| Routes.PostPath | src/app/components/blog-list-view.tsx:141 | An article's page is `/blog/` followed by its title's slug. Cards link there, and choosing the article in the palette navigates there. |
| BlogListView.FilteredPosts | src/app/components/blog-list-view.tsx:42-54 | The result is a subsequence of the posts. It holds every post both the search and the category accept, and only such posts. `FilteredPostsKeepsEveryCopy` adds that every copy is kept. |
| BlogListView.FilteredPostsKeepsEveryCopy | src/app/components/blog-list-view.tsx:42-54 | `filter` keeps every copy of an accepted post and no copy of a rejected one, so a post listed twice is shown twice. |
| BlogListView.MatchesSearch | src/app/components/blog-list-view.tsx:43-47 | The search half of the filter; `FilteredPostsSound` and `WhitespaceQueryNotTrimmed` are stated with it. |
| BlogListView.MatchesCategory | src/app/components/blog-list-view.tsx:49-50 | The category half of the filter; `CategoryButtonKeepsItsPosts` and `EmptyQueryKeepsAll` are stated with it. |
| BlogListView.FilteredPostsBounds | src/app/components/blog-list-view.tsx:42-54 | The filter never adds posts. |
| BlogListView.FilteredPostsSound | src/app/components/blog-list-view.tsx:42-54 | A kept post has the lower-cased query in its lower-cased title, excerpt or a tag, and its category starts with the selection. |
| BlogListView.EmptyQueryKeepsAll | src/app/components/blog-list-view.tsx:42-54 | With no query and no category, every post is shown, in order. |
| BlogListView.WhitespaceQueryNotTrimmed | src/app/components/blog-list-view.tsx:90 | A whitespace-only query is blank by `trim` but still filters by that whitespace. |
| BlogListView.PrimaryCategory | src/app/components/blog-list-view.tsx:36 | The primary category is the text before the first `" / "`. |
| BlogListView.PrimaryCategories | src/app/components/blog-list-view.tsx:33-40 | Lists each primary category of the posts exactly once. |
| BlogListView.PrimaryCategoriesInFirstOccurrenceOrder | src/app/components/blog-list-view.tsx:33-40 | The buttons come in the order their categories first appear. |
| BlogListView.CategoryButtonKeepsItsPosts | src/app/components/blog-list-view.tsx:117 | A category button keeps every post of its category that the search accepts. |
| BlogListView.CardLinkOpensPost | src/app/components/blog-list-view.tsx:141 | A card link shows an article with the same slug, or exactly its own article when slugs are distinct. When the slug is empty it shows nothing. |
| BlogListView.BareBlogPathMatchesNothing | src/app/routes.tsx:293 | `/blog/` matches no route. |
| BlogListView.CardKeys | src/app/components/blog-list-view.tsx:140 | Each card is keyed by its post's `id`. |
| BlogListView.MockCardKeysCollide | src/app/components/blog-list-view.tsx:140 | As written, the two mock cards share the key 1. |
| BlogListView.CardKeysDistinct | src/app/components/blog-list-view.tsx:138-140 | With distinct ids, every filtered list of cards has distinct keys. |
| BlogListView.NumberedCardKeysDistinct | src/app/components/blog-list-view.tsx:138-140 | The store with distinct ids keys every filtered list without collision. |
| BlogListView.FirstLetters | src/app/components/blog-list-view.tsx:189-190 | Taking first letters yields at most one character per word. |
| BlogListView.Initials | src/app/components/blog-list-view.tsx:187-190 | The initials are never longer than the name. |
| BlogListView.FirstLettersOfSplit | src/app/components/blog-list-view.tsx:187-190 | Split-then-first-letters picks exactly the characters that start a word. |
| BlogListView.WordStarts | src/app/components/blog-list-view.tsx:187-190 | The word starts of a string are no more than its characters. |
| BlogListView.InitialsAreWordStarts | src/app/components/blog-list-view.tsx:187-190 | The initials are the first characters of the non-empty words, in order, and hold no space. |
| BlogListView.WordStartsHaveNoSpace | src/app/components/blog-list-view.tsx:187-190 | No word start is a space. |
| CommandPalette.Calls | src/app/components/command-palette.tsx:49-52 | Every action makes two calls: `onNavigate(page)` or `onPostSelect(post)`, then `onClose()`. |
| CommandPalette.PostResults | src/app/components/command-palette.tsx:90-100 | One entry per post, in order. |
| CommandPalette.PageResult | src/app/components/command-palette.tsx:42-87 | A page entry navigates to its own name; `AllResultsLayout` states the four entries. |
| CommandPalette.PostResult | src/app/components/command-palette.tsx:90-100 | A post entry shows the title with the excerpt as subtitle and selects its own post; `AllResultsLayout` states this for every post. |
| CommandPalette.AllResults | src/app/components/command-palette.tsx:103 | The pages, then the posts; the order and contents are stated by `AllResultsLayout`. |
| CommandPalette.ResultKey | src/app/components/command-palette.tsx:193 | The React key `${type}-${id}`; `MockPaletteKeysCollide` shows two mock entries share one. |
| CommandPalette.MatchesQuery | src/app/components/command-palette.tsx:110-112 | The lower-cased query occurs in the lower-cased title or subtitle; `Matching` keeps exactly the entries it accepts. |
| CommandPalette.AllResultsLayout | src/app/components/command-palette.tsx:42-103 | The four pages come first (home, resume, certifications, contact), then one entry per post with its title, its excerpt and its own post. |
| CommandPalette.EveryActionCloses | src/app/components/command-palette.tsx:42-100 | Every entry ends by closing the palette. Page entries navigate and post entries select their post. |
| CommandPalette.MockPaletteKeysCollide | src/app/components/command-palette.tsx:193 | The two mock posts share the React key `post-1`. |
| CommandPalette.Matching | src/app/components/command-palette.tsx:107-112 | The filter keeps the entries whose title or subtitle contains the lower-cased query, and only those, in order. `MatchingKeepsEveryCopy` adds that every copy is kept. |
| CommandPalette.MatchingKeepsEveryCopy | src/app/components/command-palette.tsx:107-112 | `filter` keeps every copy of a matching entry and no copy of any other. |
| CommandPalette.FilteredResults | src/app/components/command-palette.tsx:104-113 | At most eight entries, in order. A blank query shows the first eight entries. Otherwise it shows the first eight matching entries: every entry shown matches, and all matches show when fewer than eight. |
| CommandPalette.Labels | src/app/components/command-palette.tsx:110-111 | Gives each entry's title and subtitle. |
| CommandPalette.MatchingSeesOnlyLabels | src/app/components/command-palette.tsx:107-112 | Entries with the same titles and subtitles filter alike. |
| CommandPalette.TagsAndContentNotSearched | src/app/components/command-palette.tsx:90-113 | Post lists that agree on titles and excerpts give the same visible results for every query, whatever their tags and content. |
| CommandPalette.JsRemainder | src/app/components/command-palette.tsx:136 | JavaScript's `%` is `NaN` exactly for a zero length. Otherwise it is a truncated remainder with the dividend's sign. |
| CommandPalette.ArrowsStayInRange | src/app/components/command-palette.tsx:134-142 | On a non-empty list, ArrowDown and ArrowUp keep the cursor on an entry and wrap at either end. |
| CommandPalette.ArrowsOnEmptyList | src/app/components/command-palette.tsx:134-142 | On an empty list, either arrow leaves the cursor `NaN`. |
| CommandPalette.NextIndex | src/app/components/command-palette.tsx:136 | `(prev + 1) % n` with JavaScript's `%`; `ArrowsStayInRange`, `ArrowsOnEmptyList` and `FullCircle` state its range, wrap-around and `NaN` cases. |
| CommandPalette.PrevIndex | src/app/components/command-palette.tsx:138-142 | `(prev - 1 + n) % n` with JavaScript's `%`; `ArrowsStayInRange` and `ArrowsOnEmptyList` state its range, wrap-around and `NaN` cases. |
| CommandPalette.DownsAdvance | src/app/components/command-palette.tsx:136 | `k` presses of ArrowDown move the cursor `k` places modulo the length. |
| CommandPalette.FullCircle | src/app/components/command-palette.tsx:136 | One press per entry returns the cursor to its start. |
| CommandPalette.EntryAt | src/app/components/command-palette.tsx:145-146 | Enter activates an entry exactly when the cursor is on one, and activates that entry's action. |
| CommandPalette.EnterOnNonEmptyList | src/app/components/command-palette.tsx:145-146 | With a valid cursor and at least one entry, Enter activates something. |
| CommandPalette.Palette.constructor | src/app/components/command-palette.tsx:37-39 | Starts with an empty query and the cursor at 0. |
| CommandPalette.Palette.Opened | src/app/components/command-palette.tsx:121-127 | Opening clears the query and resets the cursor. |
| CommandPalette.Palette.SetQuery | src/app/components/command-palette.tsx:116-118 | Typing replaces the query and resets the cursor. |
| CommandPalette.Palette.Hover | src/app/components/command-palette.tsx:200 | Hovering highlights that entry. |
| CommandPalette.Palette.KeyDown | src/app/components/command-palette.tsx:131-149 | Closed, it ignores keys. Open:<br>• the arrows move the cursor by `NextIndex`/`PrevIndex`;<br>• Enter returns the highlighted entry's action;<br>• other keys change nothing;<br>• the cursor invariant is kept. |
| RootLayout.ShortcutOpen | src/app/components/root-layout.tsx:13-19 | Ctrl/Cmd+K opens. Otherwise Escape closes. Any other key leaves the flag alone. |
| RootLayout.IsOpenShortcut | src/app/components/root-layout.tsx:14 | `k` with Ctrl or Cmd held; `ShortcutOpen` and `OpenShortcutIdempotent` state what it does. |
| RootLayout.OpenShortcutIdempotent | src/app/components/root-layout.tsx:14-16 | The shortcut is not a toggle. |
| RootLayout.PagePath | src/app/components/root-layout.tsx:39-44 | The routes table knows exactly the four page names. |
| RootLayout.NavigatePath | src/app/components/root-layout.tsx:38-47 | `routes[page] \|\| '/'` is one of the four page paths: the table's path for a known name, and `/` for any other. |
| RootLayout.NavigatePathRenders | src/app/components/root-layout.tsx:38-47 | Each page name leads to its page, and any other name leads home. |
| RootLayout.PostPathShowsMockPost | src/app/components/root-layout.tsx:33-37 | Choosing a mock article in the palette goes to `PostPath` of it, which shows that article. |
| RootLayout.Layout.constructor | src/app/components/root-layout.tsx:8 | The palette starts closed. |
| RootLayout.Layout.SetOpen | src/app/components/command-palette.tsx:121-127 | Setting the flag resets the palette only when it becomes open. |
| RootLayout.Layout.CommandOpen | src/app/components/root-layout.tsx:28 | Only opens the palette. |
| RootLayout.Layout.Close | src/app/components/root-layout.tsx:31 | Only closes the palette. |
| RootLayout.Layout.Navigate | src/app/components/root-layout.tsx:38-47 | Goes to the page's path and closes. |
| RootLayout.Layout.PostSelect | src/app/components/root-layout.tsx:33-37 | Goes to the article and closes. |
| RootLayout.Layout.Run | src/app/components/command-palette.tsx:49-52 | Running an entry's action navigates or selects, then closes. The palette's query and cursor are unchanged. |
| RootLayout.Layout.KeyDown | src/app/components/root-layout.tsx:12-24 | Both listeners see the old open flag:<br>• if nothing ran, the flag follows `ShortcutOpen`;<br>• Ctrl/Cmd+K on a closed palette opens it with an empty query and the cursor at 0;<br>• on an open palette the query is kept, the arrows move the cursor by `NextIndex`/`PrevIndex`, Enter runs the highlighted entry of the old list and closes, and other keys keep the cursor;<br>• on a closed palette any other key changes nothing. |
| ContactView.EmailPatternIff | src/app/components/contact-view.tsx:18-20 | The regular expression holds exactly when there is no whitespace and exactly one `@` with something before it, and after it a `.` that is not the first or last character. |
| ContactView.PatternIsEmail | src/app/components/contact-view.tsx:18-20 | One direction of the equivalence above: a match implies the described shape. |
| ContactView.EmailIsPattern | src/app/components/contact-view.tsx:18-20 | The other direction: the described shape implies a match. |
| ContactView.EmailPattern | src/app/components/contact-view.tsx:18-20 | `EMAIL_RE`, read as the regular expression's three runs; `EmailPatternIff` proves it equal to `IsEmail`. |
| ContactView.IsEmail | src/app/components/contact-view.tsx:18-20 | The second reading of `EMAIL_RE`: no whitespace, exactly one `@` with text before it, and after it a `.` that is neither the first nor the last character. |
| ContactView.PatternPartsCover | src/app/components/contact-view.tsx:18-20 | A match has no whitespace and a single `@`. |
| ContactView.FormData.With | src/app/components/contact-view.tsx:68 | `{...prev, [f]: value}` changes field `f` only. |
| ContactView.FieldCheck | src/app/components/contact-view.tsx:29-39 | An empty field gets the "Please enter" message. Otherwise a bad field gets the second message, and a good field gets none. |
| ContactView.ValidateIff | src/app/components/contact-view.tsx:22-42 | A form passes exactly when:<br>• the trimmed name is at least 2 UTF-16 code units long;<br>• the trimmed e-mail matches;<br>• the trimmed message is at least 10 code units long. |
| ContactView.Validate | src/app/components/contact-view.tsx:22-42 | `validate`: each trimmed field gets its missing or invalid message, with `.length` counted in UTF-16 code units; `ValidateIff`, `BlankFieldsAreMissing`, `ValidateIsPerField` and `AstralCharactersCountTwice` are proved of it. |
| ContactView.BlankFieldsAreMissing | src/app/components/contact-view.tsx:25-39 | A whitespace-only field is reported as missing. |
| ContactView.ValidateIsPerField | src/app/components/contact-view.tsx:22-42 | Changing one field leaves the other fields' messages alone. |
| ContactView.AstralCharactersCountTwice | src/app/components/contact-view.tsx:29-39 | A character outside the Basic Multilingual Plane counts as two: one such character is a long-enough name and five make a long-enough message, while one other character is too short a name. |
| ContactView.Touched.With | src/app/components/contact-view.tsx:77 | Marks only that field touched. |
| ContactView.FieldError | src/app/components/contact-view.tsx:138-139 | An error is shown exactly for a touched field with a validation message, and it is that message. |
| ContactView.SubmitDisabled | src/app/components/contact-view.tsx:319 | The button is disabled exactly while submitting or while the form fails validation, with the lengths counted in UTF-16 code units. |
| ContactView.ClearedFormIsQuiet | src/app/components/contact-view.tsx:125-126 | The cleared form shows no errors and cannot be sent. |
| ContactView.FailureText | src/app/components/contact-view.tsx:111-132 | A rejection gives the server's non-empty message or the rejection fallback, never an empty text. An `Error` keeps its own message, even an empty one. Only a thrown non-`Error` gives the generic fallback. |
| ContactView.StatusBanner | src/app/components/contact-view.tsx:183-194 | The banner shows exactly when one of the two texts is non-empty. It is red exactly when the error text is non-empty. It shows the error text whenever there is one, even an empty one, and otherwise the thanks. |
| ContactView.SettledBanner | src/app/components/contact-view.tsx:127-131 | After a settled request, a delivery shows the thanks and a rejection shows a red banner. An exception with an empty message shows no banner at all. |
| ContactView.ContactForm.constructor | src/app/components/contact-view.tsx:45-59 | The form starts empty, untouched and idle, with no banners. |
| ContactView.ContactForm.HandleChange | src/app/components/contact-view.tsx:64-71 | Only the typed field changes, and both banners clear. |
| ContactView.ContactForm.HandleBlur | src/app/components/contact-view.tsx:73-78 | Marks the field touched and changes nothing else. |
| ContactView.ContactForm.Submit | src/app/components/contact-view.tsx:84-97 | Clears the banners and touches every field. The request goes out exactly when the form is valid. |
| ContactView.ContactForm.Settle | src/app/components/contact-view.tsx:103-135 | On success the form is cleared and `submitSuccess` holds the thanks. On failure the form is kept and `submitError` holds `FailureText`. The form is idle either way. |
| SiteHeader.ActiveItems | src/app/components/site-header.tsx:15-27 | The highlighted items are exactly those that `isActive` accepts. |
| SiteHeader.IsActive | src/app/components/site-header.tsx:22-27 | `isActive`; `ActiveItemPaths`, `AtMostOneActive` and `KnownSegmentsHighlightOneItem` state which items it highlights. |
| SiteHeader.AtMostOneActive | src/app/components/site-header.tsx:22-27 | No path highlights two items. |
| SiteHeader.HomePathIsNoOtherPath | src/app/components/site-header.tsx:22-27 | A path that highlights Home is no other item's path. |
| SiteHeader.OnlyActive | src/app/components/site-header.tsx:22-27 | A highlighted item is the only highlighted item. |
| SiteHeader.ActiveItemPaths | src/app/components/site-header.tsx:22-27 | Home is highlighted exactly on `/` and `/blog…`, and each other item exactly on its path. `/resume/` highlights nothing. |
| SiteHeader.KnownSegmentsHighlightOneItem | src/app/components/site-header.tsx:22-27 | Every routed path shape highlights exactly one item. |
| SiteHeader.RenderedPathsHighlightOneItem | src/app/components/site-header.tsx:22-27 | Every path the router shows something for highlights exactly one item. |
| SiteHeader.BlogPrefixHighlightsHome | src/app/components/site-header.tsx:24 | One-segment paths starting with `blog` highlight Home though the router shows nothing there. |
| SiteHeader.Header.constructor | src/app/components/site-header.tsx:12 | The menu starts closed. |
| SiteHeader.Header.ToggleMenu | src/app/components/site-header.tsx:102 | The button flips the menu. |
| SiteHeader.Header.MobileNavClick | src/app/components/site-header.tsx:29-31 | A mobile link closes the menu. |
| BlogPostView.DashRunsWord | src/app/components/blog-post-view.tsx:144 | A word without whitespace is copied as it is. |
| BlogPostView.DashRunsGap | src/app/components/blog-post-view.tsx:144 | A whole whitespace run becomes one `-`. |
| BlogPostView.DashRunsNoWhitespace | src/app/components/blog-post-view.tsx:144 | No whitespace is left. |
| BlogPostView.DashRunsNoUpper | src/app/components/blog-post-view.tsx:144 | No upper-case letter is added. |
| BlogPostView.DashRuns | src/app/components/blog-post-view.tsx:144 | `replace(/\s+/g, "-")`; `DashRunsWord`, `DashRunsGap`, `DashRunsNoWhitespace` and `DashRunsNoUpper` state what it does. |
| BlogPostView.HeadingId | src/app/components/blog-post-view.tsx:141-164 | The anchor id of every heading level; `HeadingIdShape` states its shape. |
| BlogPostView.HeadingIdShape | src/app/components/blog-post-view.tsx:141-164 | Heading ids have no whitespace and no upper case, and are fixed points of the transform. |
| BlogPostView.WordRun | src/app/components/blog-post-view.tsx:101 | `(\w+)` captures the longest prefix of word characters. |
| BlogPostView.FirstLanguageAt | src/app/components/blog-post-view.tsx:101 | Finds the leftmost `language-\w` match, or none exactly when there is none. |
| BlogPostView.Language | src/app/components/blog-post-view.tsx:101 | `match[1]` is none exactly when nothing matches. Otherwise it is the non-empty word run after the leftmost `language-`. |
| BlogPostView.LanguageOfCpp | src/app/components/blog-post-view.tsx:101 | `language-c++` gives `c`. |
| BlogPostView.StripFinalNewline | src/app/components/blog-post-view.tsx:102 | Exactly one final line feed is dropped, if present. |
| BlogPostView.RenderCode | src/app/components/blog-post-view.tsx:100-140 | A block is rendered exactly when the element is not inline and its class names a language. The block carries that language and the code without its final line feed. Otherwise the element is kept untouched. |
| BlogPostView.FencedCodeRoundTrip | src/app/components/blog-post-view.tsx:102 | A block shows the code as written before the parser's final line feed. |
| BlogPostView.AuthorInitials | src/app/components/blog-post-view.tsx:71-74 | The initials are the word starts, the same as on the list's cards, with no space. |
| BlogPostView.UrlPath | src/app/components/blog-post-view.tsx:29 | An address on this host has a path exactly when it starts with the host, and host plus path gives back the address. |
| BlogPostView.PostUrl | src/app/components/blog-post-view.tsx:29 | `postUrl` from the stored slug; `SharedUrlPath` and `SharedLinksRedirect` state where it leads. |
| BlogPostView.CanonicalPostUrl | src/app/components/blog-list-view.tsx:141 | The address of the page an article is shown on; `CanonicalLinksShowPost` proves it shows the article. |
| BlogPostView.SharedUrlPath | src/app/components/blog-post-view.tsx:29 | The shared address's path is `/blog/` followed by the stored slug. |
| BlogPostView.SharedLinksRedirect | src/app/components/blog-post-view.tsx:29 | The shared address of either mock article redirects home. |
| BlogPostView.CanonicalLinksShowPost | src/app/components/blog-list-view.tsx:141 | The address built from the title slug shows the article. |
| BlogPostView.ButtonStep | src/app/components/blog-post-view.tsx:246-254 | As written, every settled copy sets `copied`, and the timer clears it. |
| BlogPostView.CheckedButtonStep | src/app/components/share-popover.tsx:17-38 | Corrected: only a successful copy sets `copied`. |
| BlogPostView.FailedCopyShowsCopied | src/app/components/blog-post-view.tsx:246-254 | As written, a failed copy shows "Copied!". |
| BlogPostView.CheckedCopiedOnlyAfterSuccess | src/app/components/blog-post-view.tsx:246-254 | With the check, "Copied!" shows only after a successful copy with no timer since. |
| BlogPostView.CopyButton.constructor | src/app/components/blog-post-view.tsx:244 | The button starts as not copied. |
| BlogPostView.CopyButton.Label | src/app/components/blog-post-view.tsx:260 | The label is "Copied!" exactly when `copied` is set, and "Copy code" otherwise. |
| BlogPostView.CopyButton.CopyResolved | src/app/components/blog-post-view.tsx:246-250 | The new flag is `ButtonStep` of the old flag. |
| BlogPostView.CopyButton.TimerFired | src/app/components/blog-post-view.tsx:250 | The timer clears the flag. |
| SharePopover.TweetText | src/app/components/share-popover.tsx:41 | "Check out: " plus the title when the title is non-empty, otherwise empty. |
| SharePopover.CutAt | src/app/components/share-popover.tsx:42 | Cuts at the first occurrence of the character. Nothing follows exactly when the character is absent, and the parts rejoin to the input. |
| SharePopover.ParseParams | src/app/components/share-popover.tsx:42 | Gives one parameter per piece. |
| SharePopover.CutAtAppend | src/app/components/share-popover.tsx:42 | Cutting `a + c + b`, where `a` has no `c`, gives `a` and `b`. |
| SharePopover.TargetsHaveNoQuery | src/app/components/share-popover.tsx:42-47 | Neither share target holds `?`. |
| SharePopover.ParseEncodedParam | src/app/components/share-popover.tsx:42 | `name=` followed by an encoded value reads back as that parameter. |
| SharePopover.OneParamLink | src/app/components/share-popover.tsx:47 | A one-parameter link reads back as its target and that parameter. |
| SharePopover.TwoParamLink | src/app/components/share-popover.tsx:42 | A two-parameter link reads back as its target and those two parameters. |
| SharePopover.TwoParamQuery | src/app/components/share-popover.tsx:42 | A query `first&second` splits into those two pieces. |
| SharePopover.TwitterUrlReadsBack | src/app/components/share-popover.tsx:40-44 | The Twitter link targets the intent and reads back as exactly `url` and `text`, whatever characters they hold. |
| SharePopover.LinkedInUrlReadsBack | src/app/components/share-popover.tsx:46-49 | The LinkedIn link targets share-offsite and reads back as exactly `url`. |
| SharePopover.TwitterUrl | src/app/components/share-popover.tsx:40-44 | The Twitter intent link; `TwitterUrlReadsBack` proves it reads back as `url` and the tweet text. |
| SharePopover.LinkedInUrl | src/app/components/share-popover.tsx:46-49 | The LinkedIn share link; `LinkedInUrlReadsBack` proves it reads back as `url`. |
| SharePopover.Step | src/app/components/share-popover.tsx:13-56 | One event:<br>• opening or closing sets `open`, and closing clears `copied`;<br>• setting `open` to its current value changes nothing;<br>• a successful copy sets `copied`, and a failed one leaves it;<br>• the timer clears it. |
| SharePopover.CopiedOnlyAfterSuccess | src/app/components/share-popover.tsx:17-38 | `copied` is set only after a successful copy with no timer since. |
| SharePopover.Popover.constructor | src/app/components/share-popover.tsx:13-14 | The popover starts closed and not copied. |
| SharePopover.Popover.CopyDisabled | src/app/components/share-popover.tsx:116 | The copy button is disabled exactly while `copied` is set. |
| SharePopover.Popover.OpenChange | src/app/components/share-popover.tsx:52-56 | The new state is `Step` of the old state for the open change. |
| SharePopover.Popover.CopySettled | src/app/components/share-popover.tsx:17-38 | The new state is `Step` of the old state for the settled copy. |
| SharePopover.Popover.TimerFired | src/app/components/share-popover.tsx:28-30 | The timer clears `copied`. |

## Left out

- BlogListView.Initials: the source's `n[0]` takes the first UTF-16 code unit of each word, which for a word starting outside the Basic Multilingual Plane (such as "𝒜da") is a lone high surrogate. A Dafny `char` is a whole scalar value, so the model takes the whole first character there.
- BlogListView.InitialsAreWordStarts: states the initials as whole first characters, with the same difference as `Initials` for words that start outside the Basic Multilingual Plane.
- BlogPostView.AuthorInitials: built on `Initials`, with the same difference for words that start outside the Basic Multilingual Plane.
- Lower-casing and the whitespace class are ASCII only. The source's `toLowerCase` and `\s` cover all of Unicode.
- Each mock article's `content` keeps only its opening heading. Nothing in the model reads the rest of the Markdown body.
- Titles and the longer stored slug are each written as two literals that concatenate to the text the store holds.
- Route matching is exact. React-router's case-insensitive matching and its tolerance of a trailing slash are not modelled, and neither are URL decoding of `:slug` and query strings.
- `fetch`, `copyToClipboard`, `setTimeout` and `window.open` are not called. Their outcomes are parameters (`Outcome`, `success`) or events (`TimerFired`). The input's `select()`/`focus()` calls and console output are left out.
- RootLayout.PagePath: the lookup `routes[page]` on a plain object would also find inherited keys such as `constructor`. The model knows only the four page names, which are all the palette passes.
- Post ids in palette keys are compared as numbers. The decimal text of `toString()` is not modelled.
- Clicking a palette entry runs the same action as Enter and is not modelled separately.
- UriEncoding.Encode: `encodeURIComponent` throws on a lone surrogate. A Dafny `char` is always a scalar value, so that input cannot be expressed.
- The resume, certifications, footer and theme views are not part of this model. They hold no logic beyond static markup.
- ContactView.ContactForm.HandleChange requires that no request is out, because the inputs are disabled while submitting.
- `String(children)` on a node array is modelled as plain text. Headings and code are taken as already flattened to a string.
- Date formatting with `toLocaleDateString` is not modelled.
- SharePopover.Step: a copy that settles after the popover closed can still set `copied`. The model keeps that order of events and proves nothing that depends on excluding it.
- BlogPostView.CopyButton: the class models the source as written, with `ButtonStep`. The corrected behaviour is `CheckedButtonStep` and its lemma.

## Findings

| source | as written | input that shows it | evidently intended | confidence | as-written member | corrected member |
|---|---|---|---|---|---|---|
| src/app/routes.tsx:159 | Both mock articles have `id: 1`. Every list keyed by `id` (the cards at blog-list-view.tsx:140, the palette's `post-1` at command-palette.tsx:193) gives two siblings the same React key. | The unfiltered article list of the mock store | Distinct ids (1 and 2) | not executed | BlogListView.MockCardKeysCollide | BlogListView.NumberedCardKeysDistinct |
| src/app/components/blog-post-view.tsx:29 | The share address is built from the stored `slug`. Lookup only recomputes slugs from titles, and neither stored slug equals its title's slug. | Sharing "AutoMapper and Overposting Attacks: Mapping Safely in ASP.NET" gives `/blog/automapper-overposting-attacks-secure-mapping`, which redirects home | The address built from the title slug, as the cards and the palette use | not executed | BlogPostView.SharedLinksRedirect | BlogPostView.CanonicalLinksShowPost |
| src/app/components/blog-post-view.tsx:246-253 | `copied` is set after any awaited copy. `copyToClipboard` (utils/clipboard.ts:4-45) reports failure by resolving `false` and never rejects, so the `catch` cannot run. | A copy where both the Clipboard API and the fallback fail: the button shows "Copied!" | Set `copied` only when the copy succeeded, as the share popover does | not executed | BlogPostView.FailedCopyShowsCopied | BlogPostView.CheckedCopiedOnlyAfterSuccess |
