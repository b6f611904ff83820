# Sheet-music gallery, modelled in Dafny

The system is a small static gallery of sheet music. Each folder under
`sheets/` is one piece, and its image files are the pages. The gallery has
four parts:

- **The catalog builder** (`generate-config.js`). It scans `sheets/` once and
  writes `sheets-config.json`. For every visible sub-directory it records the
  folder name, a URL slug, a title and the image files in natural order, and
  it sorts the records by name.
- **The home page** (`assets/js/home.js`). It lists the folders of that
  configuration as links to `sheet.html?slug=<slug>`, filtered by a search
  box. The search matches a substring of the name or the initials of its
  words.
- **The sheet viewer** (`assets/js/sheet.js`). It reads the `slug` parameter,
  finds the record with that slug and pages through its images. It has
  previous and next buttons, thumbnails, arrow keys and a fullscreen mode.
  A missing slug, an unknown slug or a folder without images sends the
  visitor back home.
- **The PHP gallery** (`api.php` with `assets/js/main.js`). The page asks the
  endpoint for the folder list and for one folder's images, and shows them in
  a slider in place of the list.

## Modules

| module | file | what it holds |
|---|---|---|
| `Wrappers` | `wrappers.dfy` | `Option` and `Result` |
| `Text` | `text.dfy` | JavaScript's `\s`, `toLowerCase`, `trim` and `includes`; the decomposition fold that strips diacritics; run collapsing (`replace(/X+/g, c)`); `split` on one character |
| `Sequences` | `sequences.dfy` | filter, map, `findIndex`, subsequences, total preorders, a stable insertion sort and lexicographic order |
| `Collation` | `collation.dfy` | the four comparators: `localeCompare` with and without `numeric`, PHP `sort` and PHP `natsort`, each a lexicographic order over a key |
| `Files` | `files.dfy` | the directory tree as a map from path to node, and `sheets/<folder>/<image>` paths |
| `Slug` | `slug.dfy` | `createSlug` |
| `Catalog` | `catalog.dfy` | `isImageFile`, `path.extname`, the folder record and `scanSheetsDirectory` |
| `Search` | `search.dfy` | `getFirstLetters` and `searchFolders`, shared by both list pages |
| `Paging` | `paging.dfy` | previous, next, go-to and the buttons' `disabled` flags, shared by both sliders |
| `Query` | `query.dfy` | `location.search` of a link and `URLSearchParams.get` |
| `Sheet` | `sheet.dfy` | the sheet viewer: loading, then a state machine over clicks, keys and fullscreen changes |
| `Api` | `api.dfy` | the PHP endpoint: `getFolders`, `getImages` and the dispatch on `action` |
| `Gallery` | `gallery.dfy` | the PHP gallery page: a state machine over search input, folder clicks, the back button, paging and keys |
| `Home` | `home.dfy` | the home page: loading, search and the folder links |

The page scripts are modelled as pure state machines. Each has a state
datatype and a `Step(state, event)` function. A `Possible` predicate says
which events the rendered page can deliver:

- a thumbnail exists only for an image position;
- the controls of a hidden section cannot be clicked.

A `fetch` becomes a parameter holding what came back: the configuration file
or the endpoint's reply, including the failure to fetch or parse it.

## Model

| member | source | states |
|---|---|---|
| `Text.Trim` | assets/js/main.js:81 | The trimmed term has no whitespace at either end. It is empty exactly when the input is all whitespace. Its characters come from the input. An input without whitespace at its ends is returned unchanged. It is the contiguous part of the input that starts after the leading whitespace run and is followed only by whitespace, so nothing inside it is removed. |
| `Text.LowerIdempotent` | assets/js/main.js:81-84 | Lower-casing twice is the same as lower-casing once. |
| `Text.CollapseRuns` | generate-config.js:35-36 | Every output character is the replacement or a non-run character of the input. The first character is kept or replaced as the head of the input dictates. A replacement that is itself a run character never appears twice in a row. An input without run characters is unchanged. |
| `Text.CollapseRunsByCharacter` | generate-config.js:35-36 | The collapse equals an independent character-by-character reading: a run character gives the replacement when it starts a run and nothing otherwise, and every other character is kept in order. |
| `Text.CollapseRunsFixpoint` | generate-config.js:36 | A string whose runs are already single replacement characters is left unchanged by the collapse. |
| `Sequences.FilterIsSubsequence` | assets/js/main.js:83-98 | `Array.prototype.filter` keeps the elements in their original relative order. |
| `Sequences.SortBy` | generate-config.js:76 | Sorting gives a permutation of its input. When the comparator is a total preorder, the result is sorted. |
| `Sequences.SortedFilter` | api.php:15-22 | Filtering and then sorting keeps exactly the accepted elements, each as often as the filter does, and sorts them. |
| `Sequences.MapPermutation` | generate-config.js:87 | Mapping two permutations of each other gives permutations of each other. |
| `Sequences.KeyOrderIsTotalPreorder` | generate-config.js:22-24 | Comparing keys lexicographically under a strict total order gives a total preorder. |
| `Collation.NaturalLeqIsTotalPreorder` | generate-config.js:22-24 | `naturalSort` is total and transitive, so sorting the images with it is well defined. |
| `Collation.LocaleLeqIsTotalPreorder` | generate-config.js:87 | The folder-name comparison is total and transitive. |
| `Collation.NatSortLeqIsTotalPreorder` | api.php:63-64 | The comparison of `natsort` is total and transitive. |
| `Collation.CodePointLeqIsTotalPreorder` | api.php:22 | The comparison of `sort` on strings is total and transitive. |
| `Collation.PageNameOrder` | generate-config.js:22-24 | Two names `p<digits><suffix>` that differ only in their page number compare as the numbers do, not as the digit strings do. |
| `Collation.UnnumberedFirst` | generate-config.js:22-24 | A name whose letter is followed at once by a suffix starting with `.` sorts strictly before the same name with page digits inserted (`p.png` before `p1.png`). |
| `Collation.NaturalOrderExample` | generate-config.js:76 | `p2.png`, `p10.png`, `p1.png` sort to `p1.png`, `p2.png`, `p10.png`. |
| `Files.ImagePaths` | assets/js/sheet.js:49 | A folder's images become one path each, in order, each `sheets/<folder>/<image>`. |
| `Slug.CreateSlug` | generate-config.js:26-37 | Every slug uses only `[a-z0-9-]` and never has two hyphens in a row. |
| `Slug.SlugEmptyIff` | generate-config.js:26-37 | The slug is empty exactly when the folded name has no letter, digit or hyphen. |
| `Slug.SlugFixpointIff` | generate-config.js:26-37 | `createSlug` leaves a string unchanged exactly when it is a well-formed slug. |
| `Slug.SlugIdempotent` | generate-config.js:26-37 | Slugging a slug changes nothing. |
| `Slug.SlugKeepsAlphanumerics` | generate-config.js:26-37 | The slug holds exactly the ASCII letters and digits of the lower-cased, accent-stripped name, in the same order. |
| `Slug.CollapseKeepsAlphanumerics` | generate-config.js:35-36 | Replacing whitespace or hyphen runs by one hyphen keeps every letter and digit, in order. |
| `Slug.TrimKeepsAlphanumerics` | generate-config.js:34 | Trimming keeps every letter and digit, in order. |
| `Slug.TwoWordSlug` | generate-config.js:26-37 | A name that folds to two words of lower-case letters around one space becomes the two words joined by one hyphen. |
| `Slug.SlugExample` | generate-config.js:28-32 | The name "Đêm Đông" gets the slug `dem-dong`: the accents go and đ becomes d. |
| `Catalog.ExtName` | generate-config.js:18 | `path.extname` of a file name is empty exactly when the name has no dot, its only dot is its first character, or it is `..`; otherwise it is the suffix from the last dot, shorter than the name and with no other dot. |
| `Catalog.ImageFileBySuffix` | generate-config.js:17-20 | `isImageFile` holds exactly when the name ends, in any case, with an allowed extension that has at least one character before it. |
| `Catalog.ImageFileIgnoresCase` | generate-config.js:17-20 | A file name and its lower-cased form are accepted alike. |
| `Catalog.BuildRecord` | generate-config.js:62-83 | A record takes the folder's name as name and title and `createSlug` of it as slug, which is well formed. Its images are exactly the folder's entries that are regular files with an image extension, as often as the folder lists them, in natural order. |
| `Catalog.ScanSheets` | generate-config.js:39-95 | A missing sheets directory is one error. A sheets path that is not a directory, or an entry that cannot be stat-ed, is the other. Otherwise the records are sorted by name, one per visible sub-directory, each built from its own folder. |
| `Catalog.ScanCoversFolders` | generate-config.js:53-60 | Every record comes from a visible directory of `sheets/`, and every visible directory gets a record. |
| `Search.SplitWords` | assets/js/main.js:74 | `split(/\s+/)` yields at least one piece, and no piece holds whitespace. |
| `Search.SplitWordsJoin` | assets/js/main.js:74 | Joined with single spaces, the pieces give the input with each whitespace run collapsed to one space. A leading or trailing run therefore yields an empty edge piece. Since no piece holds whitespace, this fixes the pieces. |
| `Search.FirstLettersByCharacter` | assets/js/main.js:72-77 | `getFirstLetters` equals the character-level reading: the lower-cased character at the start of the text and after every whitespace run. |
| `Search.SearchFolders` | assets/js/main.js:80-101 | A folder is listed exactly when its lower-cased name or its initials contain the lower-cased, trimmed term. An empty or blank term lists every folder. The result is no longer than the list. |
| `Search.SearchKeepsOrder` | assets/js/main.js:83-98 | The search result lists folders in the order of the full list. |
| `Search.BlankTermListsAll` | assets/js/main.js:81-87 | A search term of whitespace only lists every folder. |
| `Paging.Previous` | assets/js/main.js:200-205 | The previous button moves back by at most one. It moves exactly when the index is above 0. |
| `Paging.Next` | assets/js/main.js:208-213 | The next button moves on by at most one. It stays put exactly when the index is at or past the last image, which is every index when there are no images. It keeps an index in range. |
| `Paging.ControlsFor` | assets/js/main.js:151-160 | With no images nothing is updated. Otherwise the previous button is disabled exactly on the first image and the next button exactly on the last. |
| `Paging.DisabledIffNoop` | assets/js/main.js:159-160 | A button is disabled exactly when pressing it would change nothing. |
| `Paging.PreviousInRange` | assets/js/main.js:200-205 | The previous button never takes the index out of range. |
| `Paging.GoToBySteps` | assets/js/main.js:194-213 | A jump to an existing image lands where pressing next, or previous, the right number of times would. |
| `Paging.PreviousTimesStopsAtFirst` | assets/js/main.js:200-205 | `n` presses of previous from `index` reach `index - n`, or the first image if that comes first. |
| `Paging.NextUndoesPrevious` | assets/js/main.js:199-213 | After an enabled previous press, next returns to the same image. |
| `Paging.PreviousUndoesNext` | assets/js/main.js:199-213 | After an enabled next press, previous returns to the same image. |
| `Paging.NextTimesStopsAtLast` | assets/js/sheet.js:132-138 | `n` presses of next from a valid index reach `index + n`, or the last image if that comes first. |
| `Query.FirstParam` | assets/js/sheet.js:32-35 | `URLSearchParams.get` is absent exactly when no piece has the name. Otherwise it is the value of the first piece that has it. |
| `Query.ParamRoundTrip` | assets/js/sheet.js:32-35 | A value without `&`, `#` or `+`, put after `key=` in a link's query, reads back unchanged as `key`'s parameter. |
| `Sheet.LoadSheet` | assets/js/sheet.js:38-70 | An unreadable configuration redirects home. One without a folder list leaves the page blank. An unknown slug redirects exactly when no record has it. An opened viewer starts on its first image, in range and not fullscreen. |
| `Sheet.LoadSheetShowsFirstMatch` | assets/js/sheet.js:44-49 | An opened viewer shows the first record with the slug: its title and its images as paths, in order. |
| `Sheet.LoadSheetShows` | assets/js/sheet.js:44-58 | The first record with the slug, when it has images, is exactly what the viewer opens on. |
| `Sheet.LoadSheetRejectsEmpty` | assets/js/sheet.js:51-55 | A found record without images redirects home. |
| `Sheet.Init` | assets/js/sheet.js:20-29 | A missing or empty `slug` parameter redirects home. Any other value is loaded. |
| `Sheet.Step` | assets/js/sheet.js:197-234 | No event changes the title or the images, and each keeps the index in range. The fullscreen button flips the flag. Escape always leaves fullscreen off without moving. The browser leaving fullscreen clears the flag. Paging keeps the flag. The previous button and the left arrow step back by one without wrapping; the next button and the right arrow step forward up to the last image; a thumbnail sets the index to its position. Any other key leaves the viewer unchanged. |
| `Sheet.KeysMatchButtons` | assets/js/sheet.js:219-234 | The arrow keys do what the previous and next buttons do. `f` and `F` do what the fullscreen button does. |
| `Sheet.ToggleTwice` | assets/js/sheet.js:141-187 | Two fullscreen toggles return to the state before them. |
| `Sheet.RunStaysValid` | assets/js/sheet.js:97 | From a valid state, any sequence of events the page can deliver keeps the index in range and the images unchanged. |
| `Sheet.ButtonsDisabledIffNoop` | assets/js/sheet.js:81-82 | On a loaded sheet, a button is disabled exactly when pressing it changes nothing. |
| `Gallery.LoadFolders` | assets/js/main.js:30-46 | A folder list replaces both the full list and the shown list. An error reply or a failed fetch empties the shown list and keeps the rest. |
| `Gallery.OpenFolder` | assets/js/main.js:104-139 | The folder is remembered and the index reset. An image list makes the images its paths, and any other reply leaves none. The slider becomes visible exactly when it was already visible or the list has an image. |
| `Gallery.HideSlider` | assets/js/main.js:142-148 | Going back hides the slider and clears the folder, the images and the index. The folder lists are kept. |
| `Gallery.Step` | assets/js/main.js:216-233 | Search input filters the full list and changes nothing else. Keys do nothing while the slider is hidden. Escape while the slider is visible, and the back button, hide the slider as `hideSlider` does: no folder, no images, index 0, both lists kept. Paging changes only the index and keeps the slider visible. The previous and next buttons, and the arrow keys while the slider is visible, step the index back or forward without wrapping; a thumbnail sets the index to its position. A folder click opens the clicked folder of the shown list with the endpoint's reply. While the slider is visible, any key other than the arrows and Escape changes nothing. |
| `Gallery.StepKeepsInv` | assets/js/main.js:104-148 | Every possible event keeps the invariant. A visible slider has a folder and an image at the index. A hidden one holds no images. The shown list is a subsequence of the full list. |
| `Gallery.LoadFoldersKeepsInv` | assets/js/main.js:35-41 | Loading the folder list keeps the invariant. |
| `Gallery.KeysMatchButtons` | assets/js/main.js:223-233 | While the slider is visible, Escape does what the back button does and the arrow keys do what the paging buttons do. |
| `Gallery.ButtonsDisabledIffNoop` | assets/js/main.js:159-160 | While the slider is visible, a button is disabled exactly when pressing it changes nothing. |
| `Gallery.EndpointReplies` | api.php:9-68 | The endpoint never answers `getFolders` with an image list or `getImages` with a folder list, which are the reply shapes the page expects. |
| `Home.Load` | assets/js/home.js:16-33 | A configuration with a folder list shows every folder name in configuration order. A document without one, or a failed fetch, shows the matching notice and no folders. |
| `Home.SearchPage` | assets/js/home.js:68-89 | The home page lists exactly the folders that match the term. The records and the full list stay as they were, and redrawing the list through `displayFolders` clears any notice. |
| `Home.SearchPageKeepsOrder` | assets/js/home.js:71-86 | The home page's search result is in configuration order. |
| `Home.HrefFor` | assets/js/home.js:45-47 | A folder's link carries the slug of the first record with that name, or the raw name when none has it. |
| `Home.Links` | assets/js/home.js:44-51 | The page renders one link per shown folder, in order, labelled with the folder's name. |
| `Home.SlugLinkRoundTrip` | assets/js/home.js:47 | The sheet page reads back from a link exactly the well-formed slug the link was built with. |
| `Home.LinkOpensFolder` | assets/js/home.js:47 | Following the link of a folder with a non-empty slug loads the sheet for that slug. |
| `Home.LinkShowsFolder` | assets/js/home.js:44-47 | When no earlier record shares the folder's name or slug and the folder has images, following its link opens the viewer on that folder's own images. |
| `Home.EmptySlugLinkRedirects` | assets/js/home.js:47 | A folder whose slug is empty gets a link that the sheet page sends back home as having no slug. |
| `Home.CatalogLinksAreSlugs` | assets/js/home.js:47 | Every record of a scanned catalog carries a well-formed slug. |
| `Api.ScanDir` | api.php:13 | `scandir` lists the directory's entries plus `.` and `..`. |
| `Api.GetFolders` | api.php:9-25 | `getFolders` lists exactly the entries of `sheets/` other than `.` and `..` that are directories, hidden ones included, in code-point order, each as often as the listing holds it. It lists nothing when `sheets/` is not a directory. |
| `Api.PhpExtension` | api.php:54 | The extension is the text after the last dot, with no dot in it, and is empty when the name has no dot. |
| `Api.GetImages` | api.php:28-68 | An empty folder parameter (`""` or `"0"`) gets exactly the first error message. A non-empty name that is not a directory gets exactly the second. Otherwise the reply echoes the folder and lists exactly its regular files with an allowed extension in any case, in natural order, each as often as the listing holds it. |
| `Api.Handle` | api.php:5-70 | `getFolders` yields the folder list and only that action does. `getImages` yields the image reply, with an absent folder read as empty. Every other or absent action gets the invalid-action error, and only those do. The folder-required error comes exactly when `getImages` has an absent or PHP-empty folder; the folder-not-found error exactly when `getImages` has a non-empty folder that is not a directory under `sheets`. |
| `Api.ImageTestsAgree` | api.php:53-56 | Except for dotfiles, the endpoint's image test and the catalog builder's accept the same names. |
| `Api.DotfileTestsDiffer` | api.php:54 | A dotfile such as `.png` is an image to the endpoint but not to the catalog builder. |

## Left out

- **I/O and timing.** File access, `fetch`, JSON parsing and writing `sheets-config.json` are left out, and so are `alert`, `console` and the redirect itself. The file tree and every fetched document are parameters. A failed fetch or parse is one `Unreadable` or `FetchFailed` value.
- **Concurrency.** The asynchronous loads are taken as finishing before the next event. An image reply that arrives after the visitor has moved on is not modelled.
- **DOM rendering.** The DOM is reduced to the state the scripts keep and the buttons' flags. Counter text, `alt` text, the active-thumbnail class, the empty-list message and the fullscreen background image are not modelled.
- **Browser fullscreen API.** The vendor-prefixed branches of the fullscreen API are one request. Whether the browser grants it is the `FullscreenChange` event.
- **Collation.** ICU's `localeCompare` is approximated by a lexicographic order over a key: base letters through a fold table, and digit runs as numbers when `numeric` is set. PHP's `sort` is code-point order; its comparison of numeric strings as numbers is not modelled. The approximations differ from the real orders in these ways:
  - Collation.NatSortLeq: PHP's `strnatcmp` skips whitespace, and compares a digit run that starts with `0` digit by digit from the left (so `page02` comes before `page1`). The model does neither: every digit run compares by value, and spaces count.
  - Collation.ChunkLt: a symbol meets a digit run as it would meet the run's first digit, by code point. Symbols above `9` (`:` to `@`, `[` to `` ` ``, `{` to `~`) therefore sort after digits, and `{` to `~` after letters too, whereas ICU puts all punctuation and symbols before digits and letters.
  - Collation.LocaleLeq: names that differ only in case or diacritics tie, so their order is the listing order. ICU breaks such ties at a later level. Characters compare by code point after the fold, so `đ` sorts after `z` (ICU: right after `d`). Symbols also sort by code point: `:` to `@` come after digits, and `{` to `~` after letters, whereas ICU puts punctuation and symbols before both.
  - Collation.NaturalLeq: `đ` is not folded to `d`, so it sorts after `z`; ICU puts it right after `d`.
- **Unicode.** The lower-case and decomposition tables cover ASCII, Latin-1 and the Vietnamese letters only. Characters outside them are kept as they are. Characters outside the Basic Multilingual Plane count as one character, whereas JavaScript's `charAt` sees a UTF-16 unit.
- **Ties in the image sort.** Names that tie under `sensitivity: 'base'` keep their listing order, because `Array.prototype.sort` is stable and the comparator has no second key.
- **Directory listing order.** `readdirSync`'s own order is taken to be the directory's entry list. The final sorts make the result independent of it up to ties.
- **URLs.** `URLSearchParams` percent-decoding and the browser's escaping of `href` are not modelled. `Query.ParamRoundTrip` is stated for values free of `&`, `#` and `+`, which holds for every slug. The `encodeURIComponent` of the image request is not modelled: the folder name reaches the endpoint as it is.
- **Paths.** Joins are plain `dir + "/" + name`. Normalisation and `..` traversal in the `folder` parameter are not modelled.
- **Response headers.** The CORS and content-type headers of `api.php` are not modelled.
- **The thumbnail jump.** `goToImage` does not check its index, and neither does `Paging.GoTo`. Only the fact that thumbnails exist just for real images keeps the index in range, and `Possible` encodes that.
- **Blank sheet page.** `Sheet.LoadSheet` follows the code when the configuration has no folder list: the page stays blank, with no alert and no redirect.
- Gallery.LoadFolders: requires that a `getFolders` request is not answered with an image list, and `Gallery.OpenFolder` requires that a `getImages` request is not answered with a folder list. `Gallery.EndpointReplies` proves that the endpoint keeps both requirements.
- **Search with the slider open.** The gallery's search box stays usable while the slider is visible. It then changes only the hidden list.
- **Slug collisions.** Two folders whose names give the same slug are not reported. The viewer shows the first record with the slug (`Sheet.LoadSheetShowsFirstMatch`). No uniqueness policy is modelled, because the code has none.
- **The rest of the repository.** The CSS, the HTML pages and the builder's console summary are not modelled.
