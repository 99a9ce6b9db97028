# PGR wallpaper generator: scraping and selection rules in Dafny

This project models the string and dictionary logic of a small tool that
scrapes character artwork from the Punishing: Gray Raven fan wiki and builds
phone wallpapers from it. There are two parts.

The scraper (`static/data/scrapper.py`) does five things:

- It builds the **catalog**, a map from character name to the `…/Gallery` page.
- It reads the `srcset` of each gallery tab and turns it into the character's
  **coatings**, a map from coating name to full-resolution `.png` URL.
- It collects every character's coatings into the **art record**.
- Its `main` rebuilds the catalog only when the stored catalog's size differs
  from the number of icons on the live listing page.
- It also formats a colour as `#rrggbb`.

The web front end (`streamlit_app.py`) does the rest:

- It offers sorted option lists.
- It looks up the chosen coating's URL with `.get(…, None)`.
- It names the wallpaper file after the character.
- It picks the background path.

Modules, one file each:

- `Wrappers` (`wrappers.dfy`): `Option` and `Result`.
- `Strings` (`strings.dfy`): the Python `str` primitives on `seq<char>`.
  These are `in`, `replace`, `split` on one character, `split(pat)[0]`,
  ASCII `lower`, the `:02x` format and Python's string ordering.
- `Collections` (`collections.dfy`): filtering and mapping comprehensions,
  a dict built by assigning key after key, and `sorted` over a key set.
- `Scrapper` (`scrapper.dfy`): `static/data/scrapper.py`.
- `App` (`app.dfy`): `streamlit_app.py`.

The two loops of the scraper are methods with loop invariants. The
freshness check in `main` is a method too, with no loop:

- `ScrapePages` is the loop in `scrape_pages`.
- `ScrapeOpArt` is the loop in `scrape_op_art`. It takes the per-page
  extraction as a parameter. `Reconcile` passes `PageCoatings`, which is
  lines 92-110 (`CoatingsOf`) applied to the page's `srcset`s.
- `Reconcile` is the branch in `main` that decides whether to rebuild the
  catalog, followed by the call to `scrape_op_art`.

The list and dict comprehensions are functions.

HTTP and HTML parsing are replaced by inputs:

- The listing page is the sequence of its icons, each a `(title, href)` pair.
- A gallery page is a function `srcsetsAt` from page URL to the `srcset`
  strings. These are the `srcset`s of the first `<img>` of each `tabbertab`
  container that has an image.

## Behaviour worth knowing

These consequences of the code are proved in the model.

- Line 96 keeps a container when its whole `srcset` contains ".png", not
  when the chosen candidate does. So `"a.png 1x b.jpg 2x"` yields the
  candidate `b.jpg`, which line 98 turns into `b.jpg.png`. See
  `NonPngCandidateExample` and `NormaliseNonPng`.
- Line 98 deletes every `/thumb` substring in one left-to-right pass, so the
  result can still contain `/thumb`: `/thu/thumbmb` becomes `/thumb`. See
  `ThumbDeletionCanLeaveThumb`.
- A rebuilt catalog has one entry per icon only when no two icons share a
  title. Otherwise the dict at line 47 collapses the duplicates, its size
  stays below the live count, and every later run of `main` rebuilds again.
  See `CatalogSpec`.
- Line 102 derives the names from the URL list that line 99 already
  filtered, so name i always belongs to URL i. See `CoatingNames` and
  `CoatingDictSpec`.
- A page has as many coatings as surviving URLs only when the derived names
  are distinct; for a repeated name the later URL wins. See
  `CoatingDictSpec`.

## Model

| member | source | states |
|---|---|---|
| `Scrapper.GalleryUrl` | static/data/scrapper.py:45 | the page URL starts with `https://grayravens.com`, ends with `/Gallery`, and has the `href` in between |
| `Scrapper.ScrapePages` | static/data/scrapper.py:41-47 | the loop builds exactly the dict of the icons' assignments, in order |
| `Scrapper.CatalogSpec` | static/data/scrapper.py:41-47 | the catalog's keys are exactly the titles; each value is the gallery URL of an icon with that title, and of the last such icon; the catalog is no larger than the icon list, and equal in size exactly when titles are distinct |
| `Scrapper.Candidate` | static/data/scrapper.py:96 | `split(" ")[2]` succeeds exactly when the `srcset` has at least two spaces and otherwise raises `IndexError` for that `srcset`; the piece has no space |
| `Scrapper.CandidateIsThirdField` | static/data/scrapper.py:96 | the candidate is the third space-separated field, whatever surrounds it |
| `Scrapper.CandidatesSpec` | static/data/scrapper.py:96 | line 96 succeeds exactly when every `srcset` containing ".png" has three pieces; candidate j is piece 2 of the j-th such `srcset`, in order; on failure the error names the first too-short ".png" `srcset` |
| `Scrapper.NonPngCandidateExample` | static/data/scrapper.py:96 | a `srcset` can pass the ".png" test while its candidate is a JPEG |
| `Scrapper.Normalise` | static/data/scrapper.py:98 | the URL ends with ".png", and what precedes it is the text before the first ".png" with every "/thumb" deleted |
| `Scrapper.NormaliseSplits` | static/data/scrapper.py:98 | deleting "/thumb" after re-appending ".png" equals deleting it before, since no occurrence can cross into ".png" |
| `Scrapper.NormaliseThumbnail` | static/data/scrapper.py:98 | a thumbnail candidate `base/thumb/path.png/…` normalises to `base/path.png` |
| `Scrapper.NormaliseNonPng` | static/data/scrapper.py:96-98 | a candidate without ".png" keeps its text, loses its "/thumb"s and gains ".png" |
| `Scrapper.ThumbDeletionCanLeaveThumb` | static/data/scrapper.py:98 | one pass of deleting "/thumb" can create a new "/thumb" |
| `Scrapper.ArtUrlsSpec` | static/data/scrapper.py:98-99 | the survivors are exactly the normalised candidates without "screenshot" in any case, in their original order, and each ends with ".png" |
| `Scrapper.CoatingName` | static/data/scrapper.py:102 | a derived name contains no `/` and no `-` |
| `Scrapper.LastSegmentOf` | static/data/scrapper.py:102 | the piece after the last `/` is the file name, whatever the folder |
| `Scrapper.SegmentNameOfFile` | static/data/scrapper.py:102 | the file name `Coating-<tag>.png` gives the name `<tag>` with hyphens turned into spaces |
| `Scrapper.CoatingNames` | static/data/scrapper.py:102 | the name list has the length of the surviving URL list, and name i is derived from URL i |
| `Scrapper.CoatingDictSpec` | static/data/scrapper.py:110 | the keys are exactly the derived names; each value is a surviving URL whose name is its key; for a repeated name the URL with the highest index wins; the size is at most the number of URLs, and equal exactly when names are distinct |
| `Scrapper.CoatingsOfSpec` | static/data/scrapper.py:92-110 | a character succeeds exactly when each ".png" `srcset` has a candidate; then every value is a ".png", non-screenshot URL keyed by its derived name and drawn from the page's surviving URLs, and no key contains `/` or `-` |
| `Scrapper.ScrapeOpArt` | static/data/scrapper.py:75-112 | for any per-page extraction, the run fails exactly when some character's page fails, and then with that page's error; otherwise the record has exactly the catalog's keys, each mapped to the coatings of that character's page |
| `Scrapper.Reconcile` | static/data/scrapper.py:121-142 | the catalog is rebuilt exactly when the stored size differs from the live icon count; the art is then that of the catalog in use (the rebuilt one after a rebuild), page by page through lines 92-110 |
| `Scrapper.HexColourSpec` | static/data/scrapper.py:70 | for components 0..255 the colour is "#" and six lower-case hex digits, and each pair reads back to its component |
| `Strings.Format02xRoundTrip` | static/data/scrapper.py:70 | `:02x` reads back to its number, uses lower-case hex digits only, and is two digits long exactly below 256 |
| `Strings.SplitOn` | static/data/scrapper.py:96 | `split` on one character gives one more piece than there are separators, and no piece contains the separator |
| `Strings.JoinSplit` | static/data/scrapper.py:96 | joining the pieces of a split with the separator gives back the string |
| `Strings.SplitJoin` | static/data/scrapper.py:96 | splitting a join of separator-free pieces gives back the pieces |
| `Strings.SplitLast` | static/data/scrapper.py:102 | the last piece of `split("/")` is what follows the last `/` |
| `Strings.PrefixBeforeSpec` | static/data/scrapper.py:98 | `split(".png")[0]` is a prefix free of ".png"; ".png" follows it when the text contains ".png", and otherwise it is the whole text |
| `Strings.ContainsIff` | static/data/scrapper.py:96 | `pat in s` holds exactly when `pat` occurs at some index of `s` |
| `Strings.ReplaceChars` | static/data/scrapper.py:102 | `replace` introduces no character found in neither the text nor the replacement |
| `Strings.ReplaceCharRemovesAll` | static/data/scrapper.py:102 | replacing a one-character pattern leaves none of it, unless the replacement contains it |
| `Strings.ReplaceAbsent` | static/data/scrapper.py:98 | `replace` leaves a text without the pattern unchanged |
| `Strings.ReplaceAppend` | static/data/scrapper.py:98 | `replace` distributes over a concatenation when no occurrence can cross the seam |
| `Strings.Lower` | static/data/scrapper.py:99 | `lower` keeps the length and lowers each character on its own |
| `Collections.FilterAt` | static/data/scrapper.py:99 | a filtering comprehension keeps exactly the elements at the kept indices, in their original order, and every index whose element passes is a kept index |
| `Collections.MapAll` | static/data/scrapper.py:96 | a comprehension that may raise succeeds exactly when every element succeeds, with one result per element; otherwise it raises the first element's error |
| `Collections.MapAllFilterFirstError` | static/data/scrapper.py:96 | when mapping the kept elements raises, the error comes from a kept element before which every kept element maps successfully |
| `Collections.FromPairs` | static/data/scrapper.py:110 | a dict built by successive assignment has exactly the pairs' keys, each entry is one of the pairs, and it is no larger than the pair list |
| `Collections.FromPairsLastWins` | static/data/scrapper.py:47 | the last assignment to a key wins |
| `Collections.FromPairsSize` | static/data/scrapper.py:110 | the dict has one entry per pair exactly when no key repeats |
| `Collections.SortedStrings` | streamlit_app.py:41 | `sorted` of a key set is strictly increasing in Python's string order and holds exactly the keys, each once |
| `Collections.SortedUnique` | streamlit_app.py:53 | any strictly increasing arrangement of a set is the one `sorted` returns |
| `Strings.BelowTotal` | streamlit_app.py:41 | Python's string order relates any two distinct strings |
| `Strings.BelowTransitive` | streamlit_app.py:41 | Python's string order is transitive |
| `App.CharacterOptions` | streamlit_app.py:41 | the character options are a sorted permutation of the data's keys |
| `App.CoatingOptions` | streamlit_app.py:53 | the coating options are a sorted permutation of the chosen character's coating keys |
| `App.Get` | streamlit_app.py:78-79 | `.get(key, None)` gives the mapped value when the key is present and `None` otherwise |
| `App.ForegroundUrl` | streamlit_app.py:78 | the foreground URL is the chosen coating's URL when the choice is a key, and `None` otherwise or when there is no choice |
| `App.BackgroundUrl` | streamlit_app.py:79 | the background URL is `None` exactly when no coating is literally named "None", and otherwise the URL stored under "None" |
| `App.WallpaperName` | streamlit_app.py:83 | the name is the character name with every `:` made `_`, then ".png"; it has no `:`, is four characters longer, and is the name plus ".png" when there was no `:` |
| `App.BackgroundPath` | streamlit_app.py:84 | the path is `static/resources/custom_bg_img.png` when there is an upload, and "" otherwise |
| `App.WallpaperRequest` | streamlit_app.py:92-98 | the generator is called with the wallpaper name, the foreground and background look-ups, the background path and the colour, in that order |
| `App.PickedCoatingHasUrl` | streamlit_app.py:53-84 | for a coating picked from the offered options, the foreground is that coating's URL; the background is the URL stored under "None", absent exactly when there is no such coating; the file name ends in ".png", is four characters longer than the character name and has no `:`; the background path is non-empty exactly when an image was uploaded, and is then the custom image path; the colour is passed unchanged |

## Left out

- HTTP requests in `get_num_characters`, `scrape_pages`,
  `gen_operator_colour` and `scrape_op_art` are network I/O. The listing
  page is an input. `Reconcile` reads both the live count and the rebuilt
  catalog from the same icon list, although the code fetches the page twice.
- BeautifulSoup and lxml element lookup is a foreign library. What it
  yields (icons, `srcset` strings) is an input. A missing `srcset`
  attribute (`KeyError`) is not modelled.
- Pickle and JSON reads and writes are file I/O. Reloading the pickle after
  `scrape_pages` is taken to return the dict just written.
- Logging and `datetime` are left out because they have no effect on the data.
- ColorThief's palette extraction is a foreign image library. Only the
  formatting at line 70 is modelled.
- All Streamlit widgets, caching, markdown and image display are UI. The
  user's picks are inputs. When the data is empty, the character select box
  yields `None` and `main_data[None]` raises. `WallpaperRequest` requires a
  character that is a key instead.
- PIL resizing, `wallpaper_gen.main`, `utils.encode_img_to_b64` and the
  `os.remove` clean-up are image work, code outside this model, and file
  clean-up.
- `Strings.Lower`: only `A`–`Z` are lowered, while Python's `lower()` covers
  all of Unicode. For the test `"screenshot" in url.lower()` the verdict is
  the same. The only non-ASCII characters whose lower case holds ASCII
  letters are U+0130 (→ `i` and a combining dot) and U+212A (→ `k`), and
  neither `i` nor `k` occurs in "screenshot".
- `Strings.Format02x`: components are natural numbers. ColorThief yields
  0..255, so negative inputs (`-1` → `-1`) are not modelled.
- `Scrapper.ScrapeOpArt`: the code visits characters in the catalog's
  insertion order, and a `map` has no order. When several characters fail,
  the model says the error is one of theirs, not which one comes first.
- `App.BackgroundPath`: `os.path.join` is taken with the POSIX separator `/`.
