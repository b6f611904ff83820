/** The gallery page: a searchable folder list fetched from the PHP endpoint,
    and a slider that shows the images of the folder clicked, in place of the
    list, until the visitor goes back. */
module Gallery {
  import opened Wrappers
  import opened Sequences
  import opened Files
  import opened Paging
  import opened Search
  import Api

  /** The page state: every folder the endpoint listed, the folders shown
      in the list, the folder opened last, its image paths, the current index,
      and whether the slider (rather than the folder list) is visible. */
  datatype Gallery = Gallery(
    allFolders: seq<string>,
    listed: seq<string>,
    folder: Option<string>,
    images: seq<string>,
    index: nat,
    sliderVisible: bool)

  const Initial := Gallery([], [], None, [], 0, false)

  /** The slider is visible only with an image to show and a folder to name;
      while the folder list is visible no images are held; the list shows
      some of the folders, in order. */
  predicate Inv(g: Gallery) {
    && (g.sliderVisible ==> g.folder.Some? && |g.images| > 0 && g.index < |g.images|)
    && (!g.sliderVisible ==> g.images == [] && g.index == 0)
    && IsSubsequence(g.listed, g.allFolders)
  }

  /** What a request to the endpoint comes back with: its reply, or a
      failure to fetch or parse it. */
  datatype Fetched = Delivered(response: Api.Response) | FetchFailed

  /** The replies a request for the folder list can produce. */
  predicate FolderListReply(reply: Fetched) {
    reply.Delivered? ==> !reply.response.ImageList?
  }

  /** The replies a request for a folder's images can produce. */
  predicate ImageListReply(reply: Fetched) {
    reply.Delivered? ==> !reply.response.FolderList?
  }

  /** `loadFolders`: a folder list becomes the full list and is shown; an
      error reply or a failed fetch replaces the list by a message. */
  function LoadFolders(g: Gallery, reply: Fetched): (r: Gallery)
    requires FolderListReply(reply)
    ensures reply.Delivered? && reply.response.FolderList? ==>
      r.allFolders == reply.response.folders && r.listed == reply.response.folders
    ensures !(reply.Delivered? && reply.response.FolderList?) ==> r.allFolders == g.allFolders && r.listed == []
    ensures r.folder == g.folder && r.images == g.images && r.index == g.index && r.sliderVisible == g.sliderVisible
  {
    if reply.Delivered? && reply.response.FolderList? then
      g.(allFolders := reply.response.folders, listed := reply.response.folders)
    else g.(listed := [])
  }

  /** `openFolder` followed by `showSlider`: the folder is remembered and
      the images and index reset; an image list with at least one image
      opens the slider on the first image, while an empty list, an error
      reply or a failed fetch leave the view as it was. */
  function OpenFolder(g: Gallery, name: string, reply: Fetched): (r: Gallery)
    requires ImageListReply(reply)
    ensures r.folder == Some(name) && r.index == 0
    ensures r.allFolders == g.allFolders && r.listed == g.listed
    ensures r.sliderVisible <==> g.sliderVisible || (reply.Delivered? && reply.response.ImageList? && |reply.response.images| > 0)
    ensures reply.Delivered? && reply.response.ImageList? ==> r.images == ImagePaths(name, reply.response.images)
    ensures !(reply.Delivered? && reply.response.ImageList?) ==> r.images == []
  {
    var cleared := g.(folder := Some(name), images := [], index := 0);
    if reply.Delivered? && reply.response.ImageList? then
      var paths := ImagePaths(name, reply.response.images);
      if |paths| == 0 then cleared.(images := paths) else cleared.(images := paths, sliderVisible := true)
    else cleared
  }

  /** `hideSlider`: back to the folder list, with nothing open. */
  function HideSlider(g: Gallery): (r: Gallery)
    ensures !r.sliderVisible && r.folder.None? && r.images == [] && r.index == 0
    ensures r.allFolders == g.allFolders && r.listed == g.listed
  {
    g.(sliderVisible := false, folder := None, images := [], index := 0)
  }

  /** What the visitor can do once the page is set up. A folder click
      carries the endpoint's reply to the image request it triggers. */
  datatype Event =
    | SearchInput(term: string)
    | FolderClick(position: nat, reply: Fetched)
    | BackClick
    | PrevClick
    | NextClick
    | ThumbnailClick(position: nat)
    | KeyDown(key: string)

  /** Controls of a hidden section cannot be clicked: folder items only while
      the list is in view, the slider's buttons and thumbnails only while it
      is; thumbnails exist one per image. */
  predicate Possible(g: Gallery, e: Event) {
    match e
    case SearchInput(_) => true
    case FolderClick(k, reply) => !g.sliderVisible && k < |g.listed| && ImageListReply(reply)
    case BackClick => g.sliderVisible
    case PrevClick => g.sliderVisible
    case NextClick => g.sliderVisible
    case ThumbnailClick(k) => g.sliderVisible && k < |g.images|
    case KeyDown(_) => true
  }

  /** The page's reaction to one event. Keys act only while the slider is
      visible: the arrows page, Escape goes back to the list. */
  function Step(g: Gallery, e: Event): (r: Gallery)
    requires Possible(g, e)
    ensures r.allFolders == g.allFolders
    ensures e.SearchInput? ==> r == g.(listed := SearchFolders(g.allFolders, e.term))
    ensures e.KeyDown? && !g.sliderVisible ==> r == g
    ensures e == KeyDown("Escape") ==> !r.sliderVisible
    ensures (e == KeyDown("Escape") && g.sliderVisible) || e.BackClick? ==> !r.sliderVisible && r.folder.None?
    ensures e.PrevClick? || e.NextClick? || e.ThumbnailClick? ==> r.images == g.images && r.sliderVisible
    ensures e.PrevClick? || (e == KeyDown("ArrowLeft") && g.sliderVisible) ==> r.index == Previous(g.index)
    ensures e.NextClick? || (e == KeyDown("ArrowRight") && g.sliderVisible) ==> r.index == Next(g.index, |g.images|)
    ensures e.ThumbnailClick? ==> r.index == e.position
    ensures e.FolderClick? ==> r == OpenFolder(g, g.listed[e.position], e.reply)
    ensures e.BackClick? || (e == KeyDown("Escape") && g.sliderVisible) ==> r == HideSlider(g)
    ensures e.PrevClick? || e.NextClick? || e.ThumbnailClick? ==> r == g.(index := r.index)
    ensures e.KeyDown? && g.sliderVisible && e.key !in {"ArrowLeft", "ArrowRight", "Escape"} ==> r == g
  {
    match e
    case SearchInput(term) => g.(listed := SearchFolders(g.allFolders, term))
    case FolderClick(k, reply) => OpenFolder(g, g.listed[k], reply)
    case BackClick => HideSlider(g)
    case PrevClick => g.(index := Previous(g.index))
    case NextClick => g.(index := Next(g.index, |g.images|))
    case ThumbnailClick(k) => g.(index := GoTo(g.index, k))
    case KeyDown(key) =>
      if !g.sliderVisible then g
      else if key == "ArrowLeft" then g.(index := Previous(g.index))
      else if key == "ArrowRight" then g.(index := Next(g.index, |g.images|))
      else if key == "Escape" then HideSlider(g)
      else g
  }

  /** Every event keeps the invariant. */
  lemma StepKeepsInv(g: Gallery, e: Event)
    requires Inv(g) && Possible(g, e)
    ensures Inv(Step(g, e))
  {
    match e
    case SearchInput(term) =>
      SearchKeepsOrder(g.allFolders, term);
    case _ =>
  }

  /** Loading the folder list keeps the invariant. */
  lemma LoadFoldersKeepsInv(g: Gallery, reply: Fetched)
    requires Inv(g) && FolderListReply(reply)
    ensures Inv(LoadFolders(g, reply))
  {
    if reply.Delivered? && reply.response.FolderList? {
      SubsequenceReflexive(reply.response.folders);
    }
  }

  /** Escape and the back button do the same, and the arrow keys do what the
      buttons do, while the slider is visible. */
  lemma KeysMatchButtons(g: Gallery)
    requires g.sliderVisible
    ensures Step(g, KeyDown("Escape")) == Step(g, BackClick)
    ensures Step(g, KeyDown("ArrowLeft")) == Step(g, PrevClick)
    ensures Step(g, KeyDown("ArrowRight")) == Step(g, NextClick)
  {
  }

  /** With the slider visible, a button is disabled exactly when pressing
      it changes nothing. */
  lemma ButtonsDisabledIffNoop(g: Gallery)
    requires Inv(g) && g.sliderVisible
    ensures ControlsFor(g.index, |g.images|).value.prevDisabled <==> Step(g, PrevClick) == g
    ensures ControlsFor(g.index, |g.images|).value.nextDisabled <==> Step(g, NextClick) == g
  {
    DisabledIffNoop(g.index, |g.images|);
  }

  /** The endpoint answers the page's two requests with replies of the
      shapes the page expects. */
  lemma EndpointReplies(fs: FileSystem, name: Option<string>)
    ensures FolderListReply(Delivered(Api.Handle(fs, Api.Request(Some("getFolders"), name))))
    ensures ImageListReply(Delivered(Api.Handle(fs, Api.Request(Some("getImages"), name))))
  {
  }
}
