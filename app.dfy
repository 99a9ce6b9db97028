/**
 * The naming and selection rules of `streamlit_app.py`: the option lists,
 * the URL look-ups, the wallpaper file name and the background path that
 * are handed to the wallpaper generator. Widgets, image work and file
 * clean-up are not modelled; the user's picks are parameters.
 */
module App {
  import opened Wrappers
  import opened Strings
  import opened Collections

  /** The record loaded from `char_info.json`: character to (coating to image URL). */
  type ArtData = map<string, map<string, string>>

  /** `os.path.join("static", "resources", "custom_bg_img.png")` with the POSIX separator. */
  const CustomBgPath := "static/resources/custom_bg_img.png"

  /** Line 59: the background coating is fixed to the string "None". */
  const BackgroundChoice := "None"

  /** Everything the front end hands to the wallpaper generator (lines 92-98). */
  datatype Request = Request(
    name: string,
    fgUrl: Option<string>,
    bgUrl: Option<string>,
    bgPath: string,
    themeColour: string)

  /** Line 41: the character options, `sorted(tuple(main_data.keys()))`. */
  function CharacterOptions(data: ArtData): (opts: seq<string>)
    ensures StrictlySorted(opts)
    ensures forall c :: c in opts <==> c in data
    ensures |opts| == |data|
  {
    SortedStrings(data.Keys)
  }

  /** Line 53: the coating options of the chosen character, sorted. */
  function CoatingOptions(coatings: map<string, string>): (opts: seq<string>)
    ensures StrictlySorted(opts)
    ensures forall k :: k in opts <==> k in coatings
    ensures |opts| == |coatings|
  {
    SortedStrings(coatings.Keys)
  }

  /** `d.get(key, None)`. */
  function Get(d: map<string, string>, key: string): (r: Option<string>)
    ensures r.Some? <==> key in d
    ensures r.Some? ==> r.value == d[key]
  {
    if key in d then Some(d[key]) else None
  }

  /**
   * Line 78: the foreground URL. The select box yields `None` when the
   * character has no coatings, and `.get(None, None)` is `None`.
   */
  function ForegroundUrl(coatings: map<string, string>, choice: Option<string>): (r: Option<string>)
    ensures r.Some? <==> choice.Some? && choice.value in coatings
    ensures r.Some? ==> r.value == coatings[choice.value]
  {
    match choice
    case None => None
    case Some(k) => Get(coatings, k)
  }

  /** Line 79: the background URL, looked up under the literal key "None". */
  function BackgroundUrl(coatings: map<string, string>): (r: Option<string>)
    ensures r.None? <==> BackgroundChoice !in coatings
    ensures r.Some? ==> r.value == coatings[BackgroundChoice]
  {
    Get(coatings, BackgroundChoice)
  }

  /** Line 83: the wallpaper file name, every `:` made `_`, then ".png". */
  function WallpaperName(character: string): (name: string)
    ensures |name| == |character| + 4
    ensures name[|character|..] == ".png"
    ensures forall i :: 0 <= i < |character| ==> name[i] == if character[i] == ':' then '_' else character[i]
    ensures ':' !in name
    ensures ':' !in character ==> name == character + ".png"
  {
    ReplaceCharSpec(character, ':', '_');
    ReplaceCharRemovesAll(character, ':', "_");
    if ':' !in character then
      ReplaceAbsentChar(character, ':', "_");
      Replace(character, ":", "_") + ".png"
    else
      Replace(character, ":", "_") + ".png"
  }

  /** Line 84: the uploaded background's path when there is an upload, otherwise "". */
  function BackgroundPath(uploaded: bool): (p: string)
    ensures p != "" <==> uploaded
    ensures uploaded ==> p == CustomBgPath
  {
    if uploaded then CustomBgPath else ""
  }

  /**
   * Lines 44 and 78-84: the request for the chosen character and coating.
   * The character select box only offers keys of `data`.
   */
  function WallpaperRequest(data: ArtData, character: string, coating: Option<string>,
                            uploaded: bool, themeColour: string): (req: Request)
    requires character in data
    ensures req.name == WallpaperName(character)
    ensures req.fgUrl == ForegroundUrl(data[character], coating)
    ensures req.bgUrl == BackgroundUrl(data[character])
    ensures req.bgPath == BackgroundPath(uploaded)
    ensures req.themeColour == themeColour
  {
    var coatings := data[character];
    Request(WallpaperName(character), ForegroundUrl(coatings, coating),
            BackgroundUrl(coatings), BackgroundPath(uploaded), themeColour)
  }

  /**
   * What the generator receives once a character and one of its offered
   * coatings are picked: the coating's image URL as foreground, the image
   * stored under "None" (if any coating is literally named so) as background,
   * a ".png" file name free of ':', the custom background path exactly when
   * an image was uploaded, and the picked colour unchanged.
   */
  lemma PickedCoatingHasUrl(data: ArtData, character: string, pick: nat, uploaded: bool, themeColour: string)
    requires character in data
    requires pick < |CoatingOptions(data[character])|
    ensures var k := CoatingOptions(data[character])[pick];
            var req := WallpaperRequest(data, character, Some(k), uploaded, themeColour);
            && req.fgUrl == Some(data[character][k])
            && (req.bgUrl.None? <==> "None" !in data[character])
            && (req.bgUrl.Some? ==> req.bgUrl.value == data[character]["None"])
            && |req.name| == |character| + 4 && req.name[|character|..] == ".png"
            && ':' !in req.name
            && (req.bgPath != "" <==> uploaded)
            && (uploaded ==> req.bgPath == CustomBgPath)
            && req.themeColour == themeColour
  {
  }
}
