/**
 * The data pipeline of `static/data/scrapper.py`: the catalog of character
 * gallery pages, the per-character coating extraction from the images'
 * `srcset` attributes, the aggregate art record, the freshness check in
 * `main`, and the hex format of the operator colour.
 *
 * HTTP and HTML parsing are not modelled: the listing page is given as the
 * sequence of its character icons, and each gallery page as the `srcset`
 * of the first `<img>` in each `tabbertab` container that has one.
 */
module Scrapper {
  import opened Wrappers
  import opened Strings
  import opened Collections

  const CharPageBaseUrl := "https://grayravens.com"
  const GallerySuffix := "/Gallery"

  /** A character icon on the listing page: the `title` and `href` of its link. */
  datatype Icon = Icon(title: string, href: string)

  /** Character name to gallery page URL (the pickled `char_dict`). */
  type Catalog = map<string, string>

  /** Coating name to full-resolution image URL, for one character. */
  type Coatings = map<string, string>

  /** Character name to that character's coatings (the `char_info` JSON record). */
  type ArtRecord = map<string, Coatings>

  /** `srcset.split(" ")[2]` raised `IndexError` on this `srcset`. */
  datatype ScrapeError = IndexError(srcset: string)

  // ---------------------------------------------------------------------------
  // scrape_pages
  // ---------------------------------------------------------------------------

  /** `char_page_base_url + href + "/Gallery"`. */
  function GalleryUrl(href: string): (url: string)
    ensures CharPageBaseUrl <= url
    ensures |url| == |CharPageBaseUrl| + |href| + |GallerySuffix|
    ensures url[|url| - |GallerySuffix|..] == GallerySuffix
    ensures url[|CharPageBaseUrl|..|url| - |GallerySuffix|] == href
  {
    CharPageBaseUrl + href + GallerySuffix
  }

  /** The `(name, page)` assignments the loop in `scrape_pages` makes, in order. */
  function CatalogEntries(icons: seq<Icon>): (ps: seq<(string, string)>)
    ensures |ps| == |icons|
    ensures forall i :: 0 <= i < |icons| ==> ps[i] == (icons[i].title, GalleryUrl(icons[i].href))
  {
    seq(|icons|, i requires 0 <= i < |icons| => (icons[i].title, GalleryUrl(icons[i].href)))
  }

  function Titles(icons: seq<Icon>): (ts: seq<string>)
    ensures |ts| == |icons| && forall i :: 0 <= i < |icons| ==> ts[i] == icons[i].title
  {
    seq(|icons|, i requires 0 <= i < |icons| => icons[i].title)
  }

  /** The catalog `scrape_pages` builds from the icons of the listing page. */
  function CatalogOf(icons: seq<Icon>): Catalog
  {
    FromPairs(CatalogEntries(icons))
  }

  /** `scrape_pages`: fill `char_dict` one icon at a time. */
  method ScrapePages(icons: seq<Icon>) returns (catalog: Catalog)
    ensures catalog == CatalogOf(icons)
  {
    catalog := map[];
    for i := 0 to |icons|
      invariant catalog == CatalogOf(icons[..i])
    {
      assert CatalogEntries(icons[..i + 1])[..i] == CatalogEntries(icons[..i]);
      catalog := catalog[icons[i].title := GalleryUrl(icons[i].href)];
    }
    assert icons[..|icons|] == icons;
  }

  /**
   * The catalog has a key for each title and no other; each page is the
   * gallery URL of an icon with that title, and of the last such icon; it is
   * never larger than the icon list, and as large exactly when titles are distinct.
   */
  lemma {:induction false} CatalogSpec(icons: seq<Icon>)
    ensures forall t :: t in CatalogOf(icons) <==> t in Titles(icons)
    ensures forall t :: t in CatalogOf(icons) ==>
              exists i :: 0 <= i < |icons| && icons[i].title == t && CatalogOf(icons)[t] == GalleryUrl(icons[i].href)
    ensures forall i :: 0 <= i < |icons| && (forall j :: i < j < |icons| ==> icons[j].title != icons[i].title) ==>
              CatalogOf(icons)[icons[i].title] == GalleryUrl(icons[i].href)
    ensures |CatalogOf(icons)| <= |icons|
    ensures |CatalogOf(icons)| == |icons| <==> Distinct(Titles(icons))
  {
    var ps := CatalogEntries(icons);
    assert Firsts(ps) == Titles(icons);
    forall t | t in CatalogOf(icons)
      ensures exists i :: 0 <= i < |icons| && icons[i].title == t && CatalogOf(icons)[t] == GalleryUrl(icons[i].href)
    {
      var i :| 0 <= i < |ps| && ps[i] == (t, CatalogOf(icons)[t]);
    }
    forall i | 0 <= i < |icons| && (forall j :: i < j < |icons| ==> icons[j].title != icons[i].title)
      ensures CatalogOf(icons)[icons[i].title] == GalleryUrl(icons[i].href)
    {
      FromPairsLastWins(ps, i);
    }
    FromPairsSize(ps);
  }

  // ---------------------------------------------------------------------------
  // scrape_op_art: one character
  // ---------------------------------------------------------------------------

  /** `".png" in srcset`: the whole attribute is tested, not the chosen candidate. */
  predicate HasPng(srcset: string)
  {
    Contains(srcset, ".png")
  }

  /** `srcset.split(" ")[2]`, which raises when there are fewer than three pieces. */
  function Candidate(srcset: string): (r: Result<string, ScrapeError>)
    ensures r.Ok? <==> CountChar(srcset, ' ') >= 2
    ensures r.Err? ==> r.error == IndexError(srcset)
    ensures r.Ok? ==> ' ' !in r.value
  {
    var pieces := SplitOn(srcset, ' ');
    if |pieces| < 3 then Err(IndexError(srcset)) else Ok(pieces[2])
  }

  /**
   * The candidate is the third space-separated field: whatever lies before
   * the second space and whatever follows the next space does not matter.
   */
  lemma CandidateIsThirdField(a: string, b: string, c: string, rest: string)
    requires ' ' !in a && ' ' !in b && ' ' !in c
    requires rest == [] || rest[0] == ' '
    ensures Candidate(a + " " + b + " " + c + rest) == Ok(c)
  {
    var s := a + " " + b + " " + c + rest;
    SplitCons(a, b + " " + c + rest, ' ');
    assert s == a + [' '] + (b + " " + c + rest);
    SplitCons(b, c + rest, ' ');
    assert b + " " + c + rest == b + [' '] + (c + rest);
    if rest == [] {
      SplitNoSep(c, ' ');
      assert c + rest == c;
    } else {
      SplitCons(c, rest[1..], ' ');
      assert c + rest == c + [' '] + rest[1..];
    }
  }

  /** Line 96: the candidates of the `srcset`s that mention ".png", in order. */
  function Candidates(srcsets: seq<string>): Result<seq<string>, ScrapeError>
  {
    MapAll(Candidate, Filter(HasPng, srcsets))
  }

  /**
   * Line 96 succeeds exactly when every `srcset` that mentions ".png" has at
   * least two spaces; then candidate `j` is piece 2 of the `j`-th such `srcset`.
   * On failure the error names the first such `srcset` that is too short.
   */
  lemma CandidatesSpec(srcsets: seq<string>)
    ensures Candidates(srcsets).Ok? <==>
              forall i :: 0 <= i < |srcsets| && HasPng(srcsets[i]) ==> CountChar(srcsets[i], ' ') >= 2
    ensures Candidates(srcsets).Ok? ==>
              var ix := IndicesWhere(HasPng, srcsets);
              |Candidates(srcsets).value| == |ix| &&
              forall j :: 0 <= j < |ix| ==> Candidates(srcsets).value[j] == SplitOn(srcsets[ix[j]], ' ')[2]
    ensures Candidates(srcsets).Err? ==>
              exists i :: 0 <= i < |srcsets| && HasPng(srcsets[i]) && CountChar(srcsets[i], ' ') < 2 &&
                          Candidates(srcsets).error == IndexError(srcsets[i]) &&
                          forall i' :: 0 <= i' < i && HasPng(srcsets[i']) ==> CountChar(srcsets[i'], ' ') >= 2
  {
    if Candidates(srcsets).Ok? {
      var kept := Filter(HasPng, srcsets);
      var ix := IndicesWhere(HasPng, srcsets);
      FilterAt(HasPng, srcsets);
      forall i | 0 <= i < |srcsets| && HasPng(srcsets[i]) ensures CountChar(srcsets[i], ' ') >= 2 {
        var j :| 0 <= j < |ix| && ix[j] == i;
        assert Candidate(kept[j]).Ok?;
      }
    } else {
      MapAllFilterFirstError(Candidate, HasPng, srcsets);
    }
  }

  /** Line 98: cut at the first ".png", put ".png" back, then delete every "/thumb". */
  function Normalise(candidate: string): (url: string)
    ensures url == Replace(PrefixBefore(candidate, ".png"), "/thumb", "") + ".png"
    ensures |url| >= 4 && url[|url| - 4..] == ".png"
  {
    NormaliseSplits(PrefixBefore(candidate, ".png"));
    Replace(PrefixBefore(candidate, ".png") + ".png", "/thumb", "")
  }

  /** No "/thumb" can straddle the added ".png", so the deletion acts on the prefix alone. */
  lemma NormaliseSplits(prefix: string)
    ensures Replace(prefix + ".png", "/thumb", "") == Replace(prefix, "/thumb", "") + ".png"
  {
    ReplaceAppend(prefix, ".png", "/thumb", "");
    ReplaceAbsent(".png", "/thumb", "");
  }

  /**
   * The thumbnail candidates the wiki serves, `base/thumb/path.png/<size>px-….png`,
   * normalise to the full-resolution `base/path.png`.
   */
  lemma NormaliseThumbnail(base: string, path: string, rest: string)
    requires !Contains(base + "/thumb" + path, ".png")
    requires !Contains(base, "/thumb") && !Contains(path, "/thumb")
    ensures Normalise(base + "/thumb" + path + ".png" + rest) == base + path + ".png"
  {
    var x := base + "/thumb" + path;
    CutAtPng(x, rest);
    DeleteThumb(base, path);
  }

  lemma CutAtPng(x: string, rest: string)
    requires !Contains(x, ".png")
    ensures PrefixBefore(x + ".png" + rest, ".png") == x
  {
    PrefixBeforeHit(x, ".png", rest);
  }

  lemma DeleteThumb(base: string, path: string)
    requires !Contains(base, "/thumb") && !Contains(path, "/thumb")
    ensures Replace(base + "/thumb" + path, "/thumb", "") == base + path
  {
    DeleteBetween(base, path, "/thumb");
  }

  /**
   * A candidate without ".png" (possible, because line 96 tests the whole
   * `srcset`) keeps its text and gains ".png" at the end.
   */
  lemma NormaliseNonPng(candidate: string)
    requires !Contains(candidate, ".png")
    ensures Normalise(candidate) == Replace(candidate, "/thumb", "") + ".png"
  {
    PrefixBeforeMisses(candidate, ".png");
  }

  /**
   * The `srcset` "a.png 1x b.jpg 2x" passes the ".png" test, and its
   * candidate is the JPEG (which `NormaliseNonPng` then turns into "b.jpg.png").
   */
  lemma NonPngCandidateExample()
    ensures HasPng("a.png 1x b.jpg 2x") && Candidate("a.png 1x b.jpg 2x") == Ok("b.jpg")
  {
    CandidateIsThirdField("a.png", "1x", "b.jpg", " 2x");
    assert "a.png 1x b.jpg 2x" == "a.png" + " " + "1x" + " " + "b.jpg" + " 2x";
    ExampleHasPng();
  }

  lemma ExampleHasPng()
    ensures HasPng("a.png 1x b.jpg 2x")
  {
    var s := "a.png 1x b.jpg 2x";
    ContainsIff(s, ".png");
    assert OccursAt(s, ".png", 1);
  }

  /**
   * Deleting "/thumb" in one pass can join a new "/thumb", so a normalised
   * URL need not be free of it.
   */
  lemma ThumbDeletionCanLeaveThumb()
    ensures Replace("/thu/thumbmb", "/thumb", "") == "/thumb"
  {
    var head, tail := "/thu", "mb";
    assert "/thu/thumbmb" == head + ("/thumb" + tail);
    ReplaceAppend(head, "/thumb" + tail, "/thumb", "");
    ReplaceHead("/thumb", tail, "");
    assert Replace(head, "/thumb", "") == head;
    assert Replace(tail, "/thumb", "") == tail;
    assert head + ("" + tail) == "/thumb";
  }

  /** Line 99: a URL survives unless its lower-cased form mentions "screenshot". */
  predicate IsArt(url: string)
  {
    !Contains(Lower(url), "screenshot")
  }

  /** Line 98 applied to every candidate. */
  function Normalised(candidates: seq<string>): (urls: seq<string>)
    ensures |urls| == |candidates|
    ensures forall i :: 0 <= i < |candidates| ==> urls[i] == Normalise(candidates[i])
  {
    seq(|candidates|, i requires 0 <= i < |candidates| => Normalise(candidates[i]))
  }

  /** Lines 98-99: the normalised candidates, with screenshots dropped. */
  function ArtUrls(candidates: seq<string>): seq<string>
  {
    Filter(IsArt, Normalised(candidates))
  }

  /**
   * The surviving URLs are the normalised candidates that are not
   * screenshots, all of them and in their original order; each ends in ".png".
   */
  lemma ArtUrlsSpec(candidates: seq<string>)
    ensures var urls := ArtUrls(candidates);
            var ix := IndicesWhere(IsArt, Normalised(candidates));
            |urls| == |ix| &&
            (forall j :: 0 <= j < |urls| ==> urls[j] == Normalise(candidates[ix[j]])) &&
            (forall i :: 0 <= i < |candidates| && IsArt(Normalise(candidates[i])) ==> i in ix) &&
            (forall u :: u in urls ==> IsArt(u) && |u| >= 4 && u[|u| - 4..] == ".png")
  {
    var normalised := Normalised(candidates);
    FilterAt(IsArt, normalised);
    forall u | u in ArtUrls(candidates) ensures |u| >= 4 && u[|u| - 4..] == ".png" {
      var i :| 0 <= i < |normalised| && normalised[i] == u;
    }
  }

  /** Line 102: the derived name of a URL is the name of its last `/` segment. */
  function CoatingName(url: string): (name: string)
    ensures '/' !in name && '-' !in name
  {
    SegmentName(LastSegment(url))
  }

  /** `url.split("/")[-1]`: the piece after the last `/`. */
  function LastSegment(url: string): (segment: string)
    ensures '/' !in segment
  {
    var pieces := SplitOn(url, '/');
    pieces[|pieces| - 1]
  }

  /** ".png" deleted, `-` made a space, "Coating " deleted. */
  function SegmentName(segment: string): (name: string)
    ensures '/' in name ==> '/' in segment
    ensures '-' !in name
  {
    var stem := Replace(segment, ".png", "");
    var spaced := Replace(stem, "-", " ");
    NameChars(segment, stem, spaced);
    Replace(spaced, "Coating ", "")
  }

  lemma NameChars(segment: string, stem: string, spaced: string)
    requires stem == Replace(segment, ".png", "")
    requires spaced == Replace(stem, "-", " ")
    ensures '/' in Replace(spaced, "Coating ", "") ==> '/' in segment
    ensures '-' !in Replace(spaced, "Coating ", "")
  {
    ReplaceCharRemovesAll(stem, '-', " ");
    if '/' in Replace(spaced, "Coating ", "") {
      ReplaceChars(spaced, "Coating ", "", '/');
      ReplaceChars(stem, "-", " ", '/');
      ReplaceChars(segment, ".png", "", '/');
    }
    if '-' in Replace(spaced, "Coating ", "") {
      ReplaceChars(spaced, "Coating ", "", '-');
    }
  }

  /** The usual file name `Coating-<tag>.png` yields `<tag>` with hyphens as spaces. */
  lemma SegmentNameOfFile(tag: string)
    requires !Contains(tag, ".png")
    requires !Contains(Replace(tag, "-", " "), "Coating ")
    ensures SegmentName("Coating-" + tag + ".png") == Replace(tag, "-", " ")
  {
    StripPng(tag);
    StripCoating(tag);
  }

  /** Only the piece after the last `/` matters, whatever the folder. */
  lemma LastSegmentOf(folder: string, file: string)
    requires '/' !in file
    ensures LastSegment(folder + ['/'] + file) == file
  {
    SplitLast(folder, file, '/');
  }

  lemma StripPng(tag: string)
    requires !Contains(tag, ".png")
    ensures Replace("Coating-" + tag + ".png", ".png", "") == "Coating-" + tag
  {
    ContainsSkip("Coating-", tag, ".png");
    DeleteTail("Coating-" + tag, ".png");
  }

  lemma StripCoating(tag: string)
    requires !Contains(Replace(tag, "-", " "), "Coating ")
    ensures Replace(Replace("Coating-" + tag, "-", " "), "Coating ", "") == Replace(tag, "-", " ")
  {
    ReplaceCharAfter("Coating", '-', tag, " ");
    assert "Coating-" + tag == "Coating" + "-" + tag;
    assert "Coating" + " " + Replace(tag, "-", " ") == "Coating " + Replace(tag, "-", " ");
    DeleteHead("Coating ", Replace(tag, "-", " "));
  }

  /** The names list: one name per surviving URL, name `i` from URL `i`. */
  function CoatingNames(urls: seq<string>): (names: seq<string>)
    ensures |names| == |urls|
    ensures forall i :: 0 <= i < |urls| ==> names[i] == CoatingName(urls[i])
  {
    seq(|urls|, i requires 0 <= i < |urls| => CoatingName(urls[i]))
  }

  /** The pairs `(names[i], urls[i])` for every index of `urls`. */
  function Zip(names: seq<string>, urls: seq<string>): (ps: seq<(string, string)>)
    requires |urls| <= |names|
    ensures |ps| == |urls| && forall i :: 0 <= i < |urls| ==> ps[i] == (names[i], urls[i])
  {
    seq(|urls|, i requires 0 <= i < |urls| => (names[i], urls[i]))
  }

  /** Line 110: `{names[i]: urls[i] for i in range(len(urls))}`. */
  function CoatingDict(names: seq<string>, urls: seq<string>): Coatings
    requires |urls| <= |names|
  {
    FromPairs(Zip(names, urls))
  }

  /** Lines 92-110: the coatings of one character, from its gallery page's `srcset`s. */
  function CoatingsOf(srcsets: seq<string>): Result<Coatings, ScrapeError>
  {
    match Candidates(srcsets)
    case Err(e) => Err(e)
    case Ok(candidates) =>
      var urls := ArtUrls(candidates);
      Ok(CoatingDict(CoatingNames(urls), urls))
  }

  /**
   * The coatings map has exactly the derived names as keys; each value is a
   * surviving URL whose derived name is its key, and the last URL with a
   * given name wins; there are at most as many entries as surviving URLs, and
   * exactly as many when the names are distinct.
   */
  lemma {:induction false} CoatingDictSpec(urls: seq<string>)
    ensures var m := CoatingDict(CoatingNames(urls), urls);
            (forall k :: k in m <==> k in CoatingNames(urls)) &&
            (forall k :: k in m ==> m[k] in urls && CoatingName(m[k]) == k) &&
            (forall i :: 0 <= i < |urls| && (forall j :: i < j < |urls| ==> CoatingName(urls[j]) != CoatingName(urls[i])) ==>
               m[CoatingName(urls[i])] == urls[i]) &&
            |m| <= |urls| &&
            (|m| == |urls| <==> Distinct(CoatingNames(urls)))
  {
    var names := CoatingNames(urls);
    var ps := Zip(names, urls);
    var m := FromPairs(ps);
    assert Firsts(ps) == names;
    forall k | k in m ensures m[k] in urls && CoatingName(m[k]) == k {
      var i :| 0 <= i < |ps| && ps[i] == (k, m[k]);
    }
    forall i | 0 <= i < |urls| && (forall j :: i < j < |urls| ==> CoatingName(urls[j]) != CoatingName(urls[i]))
      ensures m[CoatingName(urls[i])] == urls[i]
    {
      FromPairsLastWins(ps, i);
    }
    FromPairsSize(ps);
  }

  /**
   * One character succeeds exactly when every ".png" `srcset` has a
   * candidate; then each value of its coatings is a surviving URL: a
   * ".png" URL that is not a screenshot, keyed by its derived name.
   */
  lemma CoatingsOfSpec(srcsets: seq<string>)
    ensures CoatingsOf(srcsets).Ok? <==>
              forall i :: 0 <= i < |srcsets| && HasPng(srcsets[i]) ==> CountChar(srcsets[i], ' ') >= 2
    ensures CoatingsOf(srcsets).Ok? ==>
              var m := CoatingsOf(srcsets).value;
              forall k :: k in m ==>
                && CoatingName(m[k]) == k && IsArt(m[k]) && |m[k]| >= 4
                && m[k][|m[k]| - 4..] == ".png" && '/' !in k && '-' !in k
                && m[k] in ArtUrls(Candidates(srcsets).value)
  {
    CandidatesSpec(srcsets);
    if Candidates(srcsets).Ok? {
      var urls := ArtUrls(Candidates(srcsets).value);
      CoatingDictSpec(urls);
      ArtUrlsSpec(Candidates(srcsets).value);
    }
  }

  // ---------------------------------------------------------------------------
  // scrape_op_art: every character
  // ---------------------------------------------------------------------------

  /**
   * Lines 92-110 for the gallery page at URL `u`, when that page yields the
   * `srcset`s `srcsetsAt(u)`.
   */
  function PageCoatings(srcsetsAt: string -> seq<string>): string -> Result<Coatings, ScrapeError>
  {
    u => CoatingsOf(srcsetsAt(u))
  }

  /**
   * What `scrape_op_art` produces for `catalog` when `pageArt(u)` is the
   * outcome of lines 92-110 on the gallery page at `u`: a failing character
   * aborts the whole run, otherwise every character gets exactly one entry.
   */
  ghost predicate IsArtRecordOf(catalog: Catalog, pageArt: string -> Result<Coatings, ScrapeError>, r: Result<ArtRecord, ScrapeError>)
  {
    && (r.Ok? <==> forall c :: c in catalog ==> pageArt(catalog[c]).Ok?)
    && (r.Ok? ==> r.value.Keys == catalog.Keys &&
                  forall c :: c in catalog ==> pageArt(catalog[c]) == Ok(r.value[c]))
    && (r.Err? ==> exists c :: c in catalog && pageArt(catalog[c]) == Err(r.error))
  }

  /**
   * `scrape_op_art`: visit the characters one by one and store each one's
   * coatings; `pageArt` is the per-page extraction, `PageCoatings` in `main`.
   */
  method ScrapeOpArt(catalog: Catalog, pageArt: string -> Result<Coatings, ScrapeError>) returns (r: Result<ArtRecord, ScrapeError>)
    ensures IsArtRecordOf(catalog, pageArt, r)
  {
    var charInfo: ArtRecord := map[];
    var todo := catalog.Keys;
    while todo != {}
      invariant todo <= catalog.Keys
      invariant charInfo.Keys == catalog.Keys - todo
      invariant forall c :: c in charInfo ==> pageArt(catalog[c]) == Ok(charInfo[c])
      decreases |todo|
    {
      var character :| character in todo;
      var coatings := pageArt(catalog[character]);
      if coatings.Err? {
        r := Err(coatings.error);
        assert character in catalog && pageArt(catalog[character]) == Err(r.error);
        return;
      }
      charInfo := charInfo[character := coatings.value];
      todo := todo - {character};
    }
    assert charInfo.Keys == catalog.Keys;
    r := Ok(charInfo);
  }

  // ---------------------------------------------------------------------------
  // main
  // ---------------------------------------------------------------------------

  /**
   * `main`: keep the stored catalog when its size equals the number of icons
   * on the listing page, otherwise rebuild it from those icons; then scrape
   * the art of the catalog in use.
   */
  method Reconcile(stored: Catalog, icons: seq<Icon>, srcsetsAt: string -> seq<string>)
    returns (rebuilt: bool, catalog: Catalog, art: Result<ArtRecord, ScrapeError>)
    ensures rebuilt <==> |stored| != |icons|
    ensures catalog == if rebuilt then CatalogOf(icons) else stored
    ensures IsArtRecordOf(catalog, PageCoatings(srcsetsAt), art)
  {
    var numCharLive := |icons|;
    if |stored| == numCharLive {
      rebuilt, catalog := false, stored;
    } else {
      rebuilt := true;
      catalog := ScrapePages(icons);
    }
    art := ScrapeOpArt(catalog, PageCoatings(srcsetsAt));
  }

  // ---------------------------------------------------------------------------
  // gen_operator_colour, line 70
  // ---------------------------------------------------------------------------

  /** `f"#{r:02x}{g:02x}{b:02x}"`. */
  function HexColour(r: nat, g: nat, b: nat): string
  {
    "#" + Format02x(r) + Format02x(g) + Format02x(b)
  }

  /**
   * For components in 0..255 the colour is "#" and six lower-case hex
   * digits, and each pair reads back to its component.
   */
  lemma HexColourSpec(r: nat, g: nat, b: nat)
    requires r < 256 && g < 256 && b < 256
    ensures var s := HexColour(r, g, b);
            |s| == 7 && s[0] == '#' &&
            (forall i :: 1 <= i < 7 ==> IsHexDigit(s[i])) &&
            ParseHex(s[1..3]) == r && ParseHex(s[3..5]) == g && ParseHex(s[5..7]) == b
  {
    Format02xRoundTrip(r);
    Format02xRoundTrip(g);
    Format02xRoundTrip(b);
    var s := HexColour(r, g, b);
    assert s[1..3] == Format02x(r);
    assert s[3..5] == Format02x(g);
    assert s[5..7] == Format02x(b);
  }
}
