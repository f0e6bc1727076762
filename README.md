# Qubes SDP wiki page script, modelled in Dafny

The wiki's page script (`wiki/static/js/main.js`) runs in the browser on every
documentation page. Under its DOM calls there is a small set of string and
sequence rules, and this project models them as pure functions and in-place
methods over values:

- **Heading slugs** (`addAnchorLinks`). The text is lower-cased. Each maximal
  run of characters outside `[a-z0-9]` becomes one `-`. Then one leading and
  one trailing `-` are removed. The result becomes the heading's `id`, and a
  `#` permalink is appended to the heading.
- **Current page** (`highlightCurrentPage`). This is the part of the URL path
  after its last `/`. When that part is empty it is `"index.html"`.
- **Active navigation links** (`highlightCurrentPage`). Every menu link whose
  `href` attribute equals the current page exactly gets the active style.
  Other links are left alone.
- **Search test** (`initSearch`). A query matches when it is non-empty and its
  lower-cased form occurs in the lower-cased text of the content container.
- **Table of contents** (`generateTableOfContents`). When there are at least
  three h2/h3 headings, there is one list entry per heading, in document
  order. Each entry links to `#` + the heading's id. Its text is the
  heading's text minus the first `#`. h3 entries are indented.

Modules:

- `Ascii` (`ascii.dfy`): ASCII lower-casing and the `[a-z0-9]` class.
- `Slugs` (`slug.dfy`): the slug rule, step by step as the two regular
  expressions apply it. Beside it is an independent reference description
  (`Words`, `JoinDash`: the maximal alphanumeric runs, joined by single
  dashes), and the lemmas prove that the two agree.
- `Navigation` (`navigation.dfy`): `split('/')` with its inverse `Join`,
  `pop()`, the current page, and the in-place highlighting pass over an array
  of links.
- `Search` (`search.dfy`): `includes` and the match test.
- `Headings` (`headings.dfy`): the in-place anchor pass over an array of
  headings, the h2/h3 selection, `replace('#', '')`, and the table-of-contents
  method.
- `Wrappers` (`wrappers.dfy`): `Option`.

The script calls into the browser. The model turns each of those inputs into a
parameter:

- `window.location.pathname` is the `path` argument.
- The menu links are an array of `NavLink` values. A missing `href` attribute
  is `None`.
- The headings are `Heading` values with a level, an id and a text.
- "The first `h1` has a next sibling" is the boolean `insertionPoint`.
- The content's `textContent` is a string argument.

Run order:

- The table of contents is built at script load (line 153). Anchors are
  assigned later, on `DOMContentLoaded` (line 11). So the ids the entries link
  to are whatever the page's HTML gave the headings, and the model takes
  heading ids as inputs.
- `Headings.TocAfterAnchors` states what the table of contents would be if
  the anchor pass ran first.

## Model

| member | source | states |
|---|---|---|
| `Ascii.Lower` | wiki/static/js/main.js:63 | Lower-casing keeps the length of the string. |
| `Ascii.LowerSpec` | wiki/static/js/main.js:63 | Lower-casing maps each `A`-`Z` to the matching `a`-`z` and leaves every other character unchanged. No upper-case letter remains. |
| `Ascii.LowerFixed` | wiki/static/js/main.js:63 | A string without upper-case letters is unchanged by lower-casing. |
| `Ascii.LowerIdempotent` | wiki/static/js/main.js:96-98 | Lower-casing an already lower-cased string changes nothing. |
| `Ascii.LowerConcat` | wiki/static/js/main.js:98 | Lower-casing distributes over concatenation. |
| `Slugs.SkipSeparators` | wiki/static/js/main.js:64 | What remains after the front `[^a-z0-9]+` match is empty or starts with an alphanumeric, and it is no longer than the input. |
| `Slugs.SkippedAreSeparators` | wiki/static/js/main.js:64 | The greedy `[^a-z0-9]+` match at the front. What remains is the suffix of the input after the dropped prefix, and every dropped character lies outside `[a-z0-9]`. |
| `Slugs.CollapseIsJoinedWords` | wiki/static/js/main.js:64-65 | The two `replace` calls together produce exactly the maximal `[a-z0-9]` runs of their input, joined by single dashes. |
| `Slugs.SlugIsJoinedWords` | wiki/static/js/main.js:62-65 | A slug is the maximal alphanumeric runs of the lower-cased text, joined by single dashes. |
| `Slugs.WordsAreWords` | wiki/static/js/main.js:64 | Each run found is non-empty and made only of `[a-z0-9]`. |
| `Slugs.WordsOfJoinDash` | wiki/static/js/main.js:64-65 | Splitting a dash-joined list of words into its runs gives the words back. |
| `Slugs.JoinDashOfWords` | wiki/static/js/main.js:64-65 | Every well-formed slug is the dash-join of its own runs (the reverse round trip). |
| `Slugs.WordsAfterWord` | wiki/static/js/main.js:64 | A word followed by a separator, or by nothing, is the first run found. The rest of the runs come from what follows it. |
| `Slugs.WordsAfterSeparators` | wiki/static/js/main.js:64 | Separators in front of a word, or at the end, produce no run. |
| `Slugs.WordsOfTwo` | wiki/static/js/main.js:64 | Two words, each followed by separators, give exactly those two runs. |
| `Slugs.SlugSplitsAtFirstDash` | wiki/static/js/main.js:64-65 | A non-empty slug starts with a word. Either that word is the whole slug, or a dash and a shorter slug follow it. |
| `Slugs.WordsOfSlug` | wiki/static/js/main.js:64-65 | The runs of a slug are its first word followed by the runs of the slug after the first dash. |
| `Slugs.JoinDashIsSlug` | wiki/static/js/main.js:64-65 | Joining words with single dashes always yields a well-formed slug. |
| `Slugs.SlugShape` | wiki/static/js/main.js:62-65 | Every slug character is in `[a-z0-9-]`. A slug never starts or ends with `-` and never contains `--`. |
| `Slugs.SlugFixedPoints` | wiki/static/js/main.js:62-65 | The rule leaves a string unchanged if and only if the string has the slug shape. |
| `Slugs.SlugIdempotent` | wiki/static/js/main.js:62-65 | The slug of a slug is that slug. |
| `Slugs.SlugKeepsAlnums` | wiki/static/js/main.js:62-65 | Drop the dashes from a slug and you get exactly the `[a-z0-9]` characters of the lower-cased text, in their original order. |
| `Slugs.SlugEmptyIff` | wiki/static/js/main.js:64-65 | The slug is empty if and only if the lower-cased text has no `[a-z0-9]` character, so punctuation-only text gives `""`. |
| `Slugs.GettingStartedExample` | wiki/static/js/main.js:62-65 | `"Getting Started!!"` gives `"getting-started"`. |
| `Navigation.SplitPiecesAvoidSeparator` | wiki/static/js/main.js:19 | No piece produced by `split('/')` contains `/`. |
| `Navigation.JoinSplit` | wiki/static/js/main.js:19 | Joining the pieces of `split` with the separator rebuilds the path. |
| `Navigation.SplitJoin` | wiki/static/js/main.js:19 | Splitting a join of separator-free pieces gives those pieces back. |
| `Navigation.SeveralPiecesHoldSeparator` | wiki/static/js/main.js:19 | A split with more than one piece means the string contains the separator. |
| `Navigation.LastSegmentIsAfterLastSlash` | wiki/static/js/main.js:19 | `pop()` returns a `/`-free suffix of the path. That suffix is either the whole path or preceded by `/`, which makes it the part after the last `/`. |
| `Navigation.AfterLastSlashUnique` | wiki/static/js/main.js:19 | Only one suffix of a path has that property. |
| `Navigation.CurrentPage` | wiki/static/js/main.js:19 | The current page name is never empty and never contains `/`. |
| `Navigation.CurrentPageIsAfterLastSlash` | wiki/static/js/main.js:19 | The current page is the part after the last `/`. When that part is empty it is `"index.html"` instead. |
| `Navigation.InstallPageExample` | wiki/static/js/main.js:19 | `/docs/install.html` gives `install.html`. |
| `Navigation.DirectoryPathExample` | wiki/static/js/main.js:19 | `/` and `/docs/` give `index.html`. |
| `Navigation.HighlightedLinks` | wiki/static/js/main.js:22-28 | No link is added or lost and no `href` changes. A link whose `href` equals the page gets the active style. Every other link is left exactly as it was. |
| `Navigation.ActiveIffHrefIsPage` | wiki/static/js/main.js:22-28 | If no link was styled before, a link ends up active if and only if its `href` equals the page. The comparison is exact and case-sensitive. |
| `Navigation.HighlightedIdempotent` | wiki/static/js/main.js:22-28 | Running the highlighting pass a second time changes nothing. |
| `Navigation.HighlightCurrentPage` | wiki/static/js/main.js:18-29 | The in-place pass leaves the link array equal to the highlighted version of the old array, for the page computed from the path. |
| `Search.IncludesIffOccurs` | wiki/static/js/main.js:101 | `includes` holds if and only if the pattern occurs at some index of the text. |
| `Search.MatchesIff` | wiki/static/js/main.js:96-101 | A search matches if and only if the query is non-empty and the lower-cased query occurs in the lower-cased content. |
| `Search.EmptyQueryNeverMatches` | wiki/static/js/main.js:101 | The empty query never matches. |
| `Search.MatchesIgnoresCase` | wiki/static/js/main.js:96-98 | Lower-casing the query or the content first does not change the outcome. |
| `Search.QueryInContentMatches` | wiki/static/js/main.js:96-101 | Content that contains a non-empty query matches that query. |
| `Headings.AnchoredHeading` | wiki/static/js/main.js:62-78 | After the anchor pass a heading keeps its level. Its id is a well-formed slug and is its own slug. Its text gains a trailing `#`, the appended permalink. |
| `Headings.AddAnchorLinks` | wiki/static/js/main.js:59-78 | The in-place pass updates every heading, and only that heading, to its anchored form. |
| `Headings.AnchoredAllAt` | wiki/static/js/main.js:61-78 | Anchoring a list of headings anchors each one, position by position. |
| `Headings.TocHeadingsConcat` | wiki/static/js/main.js:123 | Selecting h2/h3 distributes over concatenation, which keeps document order. |
| `Headings.TocHeadingsSingle` | wiki/static/js/main.js:123 | One heading is selected if and only if it is not an h4. |
| `Headings.TocHeadingsWithoutH4` | wiki/static/js/main.js:123 | On a page without h4 headings, every heading is selected. |
| `Headings.TocHeadingsOfAnchored` | wiki/static/js/main.js:61-67 | Anchoring does not change which headings are selected. |
| `Headings.TocHeadingsFromInput` | wiki/static/js/main.js:123 | Every selected heading comes from the page and is not an h4. |
| `Headings.RemoveFirstAbsent` | wiki/static/js/main.js:136 | `replace('#', '')` leaves text without `#` unchanged. |
| `Headings.RemoveFirstAt` | wiki/static/js/main.js:136 | `replace('#', '')` removes exactly the first `#` and keeps everything else in order. |
| `Headings.RemoveFirstOfAppended` | wiki/static/js/main.js:136 | Removing the first `#` from a `#`-free text with one `#` appended gives the text back. |
| `Headings.GenerateTableOfContents` | wiki/static/js/main.js:122-149 | Nothing is inserted when there are fewer than three h2/h3 headings or no insertion point. Otherwise there is one entry per h2/h3 heading, in order. Each entry's href is `#` + the id and its text is the heading text minus the first `#`. An entry is indented if and only if its heading is an h3. |
| `Headings.TocThreshold` | wiki/static/js/main.js:124 | On a page of h2/h3 headings with an insertion point, a table of contents appears if and only if there are at least three headings. Three is enough and two is not. |
| `Headings.TocAfterAnchors` | wiki/static/js/main.js:132-144 | If the anchor pass ran first, every entry would link to `#` + the slug of its heading's text, whatever that text holds. An entry whose heading text has no `#` would be labelled with that original text. |
| `Headings.AnchoredHashExample` | wiki/static/js/main.js:132-136 | If the anchor pass ran first, a heading text that already holds a `#` would lose that `#`, not the permalink's: `"C# intro"` would be labelled `"C intro#"`. |

## Left out

- Copy buttons (`addCopyButtons`, lines 33-54): the clipboard write is an asynchronous browser call and the label revert is a 2-second timer.
- Smooth scrolling (lines 108-119) and the mouse-enter/leave visibility toggles of the permalinks (lines 80-86): event wiring and scrolling, with no logic to model.
- The `DOMContentLoaded` wiring (lines 3-15) and the input-event wiring of the search box (line 95). The absent-box early return (lines 92-93) just means no handler is installed.
- `console.log` (line 102): output only; the model stops at the match test.
- A missing `.container` element (line 97) makes the handler throw. The model takes the content text as given.
- Element creation, `appendChild`/`insertBefore`, style values other than the three highlight properties, the permalink's own styles, and the table-of-contents container markup (lines 37-53, 69-78, 126-130, 146-149): the model records which entries a table of contents would have, whether it is inserted (`insertionPoint`), and the ids, texts and hrefs.
- `Ascii.Lower`: does not model full Unicode `toLowerCase`; only `A`-`Z` are lower-cased and every other character is kept. For slugs this matters only for characters such as U+212A KELVIN SIGN, which the browser lower-cases to an ASCII `k`. For `Search.Matches` it changes the verdict on ordinary text: the query `"É"` matches the content `"é"` in the browser (lines 96 and 98 both give `"é"`), but the model reports no match.
- `Navigation.HighlightCurrentPage`: the links are values in an array, not shared DOM objects, so aliasing between elements is not modelled.
- The run order at script load (line 153) versus `DOMContentLoaded`: heading ids are inputs to the table-of-contents plan. `Headings.TocAfterAnchors` describes the anchors-first order.
- Duplicate slugs: the script does not resolve them, so the model has no de-duplication rule.
