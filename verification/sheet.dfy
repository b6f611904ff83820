/** The single-sheet viewer page: it reads the `slug` parameter, finds the
    folder record with that slug in the catalog, and then pages through its
    images, with a fullscreen mode. */
module Sheet {
  import opened Wrappers
  import opened Sequences
  import opened Files
  import opened Catalog
  import opened Paging
  import opened Query

  /** The page state: the folder title once one is loaded, the image paths,
      the current index and whether the slider is in fullscreen mode. */
  datatype Viewer = Viewer(title: Option<string>, images: seq<string>, index: nat, fullscreen: bool)

  /** The state before anything is loaded. */
  const Blank := Viewer(None, [], 0, false)

  predicate Valid(v: Viewer) {
    InRange(v.index, |v.images|)
  }

  /** Why the page sends the visitor back to the folder list. */
  datatype Redirect = MissingSlug | SheetNotFound | NoImages | LoadFailed

  /** What loading the page leads to: a viewer to interact with, or an alert
      followed by a redirect to `index.html`. */
  datatype Page = Open(viewer: Viewer) | RedirectHome(reason: Redirect)

  predicate HasSlug(slug: string, f: FolderRecord) {
    f.slug == slug
  }

  /** `loadSheet`: the first record with the slug is shown from its first
      image. A missing record or one without images redirects home, and so
      does a configuration that cannot be fetched or parsed; a configuration
      without a folder list leaves the page blank. */
  function LoadSheet(config: ConfigFile, slug: string): (r: Page)
    ensures config.Unreadable? ==> r == RedirectHome(LoadFailed)
    ensures config.NoFolderList? ==> r == Open(Blank)
    ensures config.Config? ==>
      (r == RedirectHome(SheetNotFound) <==> forall k :: 0 <= k < |config.folders| ==> config.folders[k].slug != slug)
    ensures r.Open? ==> Valid(r.viewer) && r.viewer.index == 0 && !r.viewer.fullscreen
  {
    match config
    case Unreadable => RedirectHome(LoadFailed)
    case NoFolderList => Open(Blank)
    case Config(folders) =>
      match FirstIndex(folders, f => HasSlug(slug, f))
      case None => RedirectHome(SheetNotFound)
      case Some(k) =>
        var folder := folders[k];
        var images := ImagePaths(folder.name, folder.images);
        if |images| == 0 then RedirectHome(NoImages)
        else Open(Viewer(Some(folder.title), images, 0, false))
  }

  /** The folder a loaded viewer shows is the first record with the slug,
      its images turned into paths one for one and in order. */
  lemma LoadSheetShowsFirstMatch(folders: seq<FolderRecord>, slug: string)
    requires LoadSheet(Config(folders), slug).Open?
    ensures exists k :: (0 <= k < |folders| && folders[k].slug == slug
      && (forall j :: 0 <= j < k ==> folders[j].slug != slug)
      && LoadSheet(Config(folders), slug).viewer == Viewer(Some(folders[k].title), ImagePaths(folders[k].name, folders[k].images), 0, false))
  {
    var k := FirstIndex(folders, f => HasSlug(slug, f)).value;
    assert folders[k].slug == slug;
  }

  /** The first record with the slug, when it has images, is what the
      viewer opens on. */
  lemma LoadSheetShows(folders: seq<FolderRecord>, slug: string, k: nat)
    requires k < |folders| && folders[k].slug == slug && |folders[k].images| > 0
    requires forall j :: 0 <= j < k ==> folders[j].slug != slug
    ensures LoadSheet(Config(folders), slug)
         == Open(Viewer(Some(folders[k].title), ImagePaths(folders[k].name, folders[k].images), 0, false))
  {
    var m := FirstIndex(folders, f => HasSlug(slug, f));
    assert HasSlug(slug, folders[k]);
    assert m == Some(k);
  }

  /** A record that is found but has no images is rejected. */
  lemma LoadSheetRejectsEmpty(folders: seq<FolderRecord>, slug: string, k: nat)
    requires k < |folders| && folders[k].slug == slug && folders[k].images == []
    requires forall j :: 0 <= j < k ==> folders[j].slug != slug
    ensures LoadSheet(Config(folders), slug) == RedirectHome(NoImages)
  {
    var m := FirstIndex(folders, f => HasSlug(slug, f));
    assert HasSlug(slug, folders[k]);
    assert m == Some(k);
  }

  /** `init`: a missing or empty `slug` parameter redirects home at once. */
  function Init(search: string, config: ConfigFile): (r: Page)
    ensures ParamValue(search, "slug") in {None, Some("")} ==> r == RedirectHome(MissingSlug)
    ensures (match ParamValue(search, "slug") case None => false case Some(s) => s != "") ==>
      r == LoadSheet(config, ParamValue(search, "slug").value)
  {
    match ParamValue(search, "slug")
    case None => RedirectHome(MissingSlug)
    case Some(slug) => if slug == "" then RedirectHome(MissingSlug) else LoadSheet(config, slug)
  }

  /** What the visitor or the browser can do once the page is set up. */
  datatype Event =
    | PrevClick
    | NextClick
    | ThumbnailClick(position: nat)
    | FullscreenClick
    | KeyDown(key: string)
    | FullscreenChange(browserFullscreen: bool)

  /** Thumbnails exist only for the images, one per position. */
  predicate Possible(v: Viewer, e: Event) {
    e.ThumbnailClick? ==> e.position < |v.images|
  }

  function PreviousImage(v: Viewer): Viewer {
    v.(index := Previous(v.index))
  }

  function NextImage(v: Viewer): Viewer {
    v.(index := Next(v.index, |v.images|))
  }

  /** `toggleFullscreen`: the flag flips; the browser's own fullscreen mode
      is requested or left on the side. */
  function ToggleFullscreen(v: Viewer): Viewer {
    v.(fullscreen := !v.fullscreen)
  }

  /** The page's reaction to one event. Arrow keys act as the buttons, `f`
      and `F` as the fullscreen button, and Escape leaves fullscreen mode
      when it is on; other keys do nothing. When the browser reports that it
      is no longer in fullscreen, the flag is cleared. */
  function Step(v: Viewer, e: Event): (r: Viewer)
    requires Possible(v, e)
    ensures r.title == v.title && r.images == v.images
    ensures Valid(v) ==> Valid(r)
    ensures e.FullscreenClick? ==> r == v.(fullscreen := !v.fullscreen)
    ensures e == KeyDown("Escape") ==> !r.fullscreen && r.index == v.index
    ensures e.FullscreenChange? ==> r.index == v.index && (r.fullscreen <==> v.fullscreen && e.browserFullscreen)
    ensures e.PrevClick? || e.NextClick? || e.ThumbnailClick? ==> r.fullscreen == v.fullscreen
    ensures e.PrevClick? || e == KeyDown("ArrowLeft") ==> r.index == Previous(v.index)
    ensures e.NextClick? || e == KeyDown("ArrowRight") ==> r.index == Next(v.index, |v.images|)
    ensures e.ThumbnailClick? ==> r.index == e.position
    ensures e.KeyDown? && e.key !in {"ArrowLeft", "ArrowRight", "Escape", "f", "F"} ==> r == v
  {
    match e
    case PrevClick => PreviousImage(v)
    case NextClick => NextImage(v)
    case ThumbnailClick(k) => v.(index := GoTo(v.index, k))
    case FullscreenClick => ToggleFullscreen(v)
    case KeyDown(key) =>
      if key == "ArrowLeft" then PreviousImage(v)
      else if key == "ArrowRight" then NextImage(v)
      else if key == "Escape" then (if v.fullscreen then ToggleFullscreen(v) else v)
      else if key == "f" || key == "F" then ToggleFullscreen(v)
      else v
    case FullscreenChange(active) => if active then v else v.(fullscreen := false)
  }

  /** The arrow keys and the `f` key do exactly what the buttons do. */
  lemma KeysMatchButtons(v: Viewer)
    ensures Step(v, KeyDown("ArrowLeft")) == Step(v, PrevClick)
    ensures Step(v, KeyDown("ArrowRight")) == Step(v, NextClick)
    ensures Step(v, KeyDown("f")) == Step(v, FullscreenClick)
    ensures Step(v, KeyDown("F")) == Step(v, FullscreenClick)
  {
  }

  /** Fullscreen toggles undo each other and never move the page. */
  lemma ToggleTwice(v: Viewer)
    ensures Step(Step(v, FullscreenClick), FullscreenClick) == v
  {
  }

  /** The events applied in turn; nothing when one of them is not possible. */
  function Run(v: Viewer, events: seq<Event>): Option<Viewer>
    decreases |events|
  {
    if |events| == 0 then Some(v)
    else if Possible(v, events[0]) then Run(Step(v, events[0]), events[1..])
    else None
  }

  /** Every reachable viewer state keeps its index in range: whatever
      possible events follow a valid state. */
  lemma {:induction false} RunStaysValid(v: Viewer, events: seq<Event>)
    requires Valid(v)
    ensures Run(v, events).Some? ==> Valid(Run(v, events).value) && Run(v, events).value.images == v.images
    decreases |events|
  {
    if |events| > 0 && Possible(v, events[0]) {
      RunStaysValid(Step(v, events[0]), events[1..]);
    }
  }

  /** The buttons' state in the rendered page. */
  function Buttons(v: Viewer): Option<Controls> {
    ControlsFor(v.index, |v.images|)
  }

  /** A page showing a sheet disables a button exactly when pressing it
      would leave the viewer unchanged. */
  lemma ButtonsDisabledIffNoop(v: Viewer)
    requires Valid(v) && |v.images| > 0
    ensures Buttons(v).value.prevDisabled <==> Step(v, PrevClick) == v
    ensures Buttons(v).value.nextDisabled <==> Step(v, NextClick) == v
  {
    DisabledIffNoop(v.index, |v.images|);
  }
}
