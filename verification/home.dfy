/** The home page: the folder list read from `sheets-config.json`, each
    folder a link to the sheet viewer, filtered by the search box. */
module Home {
  import opened Wrappers
  import opened Sequences
  import opened Catalog
  import opened Slug
  import opened Search
  import opened Query
  import Sheet

  /** Why the list could not be shown: the file has no folder list, or it
      could not be fetched or parsed. */
  datatype Notice = InvalidConfig | ConfigUnavailable

  /** The page state: the records of the configuration, every folder name,
      the names the list currently shows, and the notice shown instead of
      the list, if any. */
  datatype HomePage = HomePage(records: seq<FolderRecord>, allFolders: seq<string>, shown: seq<string>, notice: Option<Notice>)

  function RecordName(r: FolderRecord): string {
    r.name
  }

  /** `loadFolders`: the folder names in configuration order, all shown. */
  function Load(config: ConfigFile): (r: HomePage)
    ensures config.Config? ==> r.records == config.folders && r.notice.None? && r.shown == r.allFolders
    ensures config.Config? ==> |r.allFolders| == |config.folders|
    ensures config.Config? ==> forall i :: 0 <= i < |config.folders| ==> r.allFolders[i] == config.folders[i].name
    ensures config.NoFolderList? ==> r == HomePage([], [], [], Some(InvalidConfig))
    ensures config.Unreadable? ==> r == HomePage([], [], [], Some(ConfigUnavailable))
  {
    match config
    case Config(folders) =>
      var names := MapSeq(RecordName, folders);
      HomePage(folders, names, names, None)
    case NoFolderList => HomePage([], [], [], Some(InvalidConfig))
    case Unreadable => HomePage([], [], [], Some(ConfigUnavailable))
  }

  /** `searchFolders` on this page. Redrawing the list replaces whatever
      notice it held. */
  function SearchPage(page: HomePage, raw: string): (r: HomePage)
    ensures r.records == page.records && r.allFolders == page.allFolders
    ensures r.notice.None?
    ensures forall name :: name in r.shown <==> name in page.allFolders && Matches(name, NormalizeTerm(raw))
  {
    page.(shown := SearchFolders(page.allFolders, raw), notice := None)
  }

  /** What the list shows is always some of the folders, in order. */
  lemma SearchPageKeepsOrder(page: HomePage, raw: string)
    ensures IsSubsequence(SearchPage(page, raw).shown, page.allFolders)
  {
    SearchKeepsOrder(page.allFolders, raw);
  }

  /** The start of every folder link. */
  const LinkBase := "sheet.html?slug="

  predicate HasName(name: string, r: FolderRecord) {
    r.name == name
  }

  /** The `href` of a folder's link: the slug of the first record with that
      exact name, or the raw name when no record has it. */
  function HrefFor(records: seq<FolderRecord>, name: string): (r: string)
    ensures (forall k :: 0 <= k < |records| ==> records[k].name != name) ==> r == LinkBase + name
    ensures forall k :: (0 <= k < |records| && records[k].name == name
      && (forall j :: 0 <= j < k ==> records[j].name != name)) ==> r == LinkBase + records[k].slug
  {
    match FirstIndex(records, r => HasName(name, r))
    case None => LinkBase + name
    case Some(k) => LinkBase + records[k].slug
  }

  /** One entry of the rendered list. */
  datatype Link = Link(text: string, href: string)

  /** `displayFolders`: a link per shown name, labelled by the name. */
  function Links(page: HomePage): (r: seq<Link>)
    ensures |r| == |page.shown|
    ensures forall i :: 0 <= i < |r| ==> r[i] == Link(page.shown[i], HrefFor(page.records, page.shown[i]))
  {
    seq(|page.shown|, i requires 0 <= i < |page.shown| => Link(page.shown[i], HrefFor(page.records, page.shown[i])))
  }

  /** The link's query, as the sheet page reads it back. */
  lemma LinkBaseShape(value: string)
    ensures LinkBase + value == "sheet.html" + "?" + "slug" + "=" + value
  {
  }

  /** A slug has none of the characters that would end or alter a query
      value. */
  lemma SlugIsQuerySafe(slug: string)
    requires IsSlug(slug)
    ensures '&' !in slug && '#' !in slug && '+' !in slug
  {
  }

  /** Following a link to a well-formed slug hands that slug to the sheet
      page's loader. */
  lemma SlugLinkRoundTrip(slug: string)
    requires IsSlug(slug)
    ensures ParamValue(SearchPart(LinkBase + slug), "slug") == Some(slug)
  {
    SlugIsQuerySafe(slug);
    LinkBaseShape(slug);
    ParamRoundTrip("sheet.html", "slug", slug);
  }

  /** The link of a folder whose first record has a non-empty slug opens
      the sheet page on the first record with that slug; when no earlier
      record shares the slug and the folder has images, that is the
      folder's own record. */
  lemma LinkOpensFolder(records: seq<FolderRecord>, k: nat)
    requires k < |records| && IsSlug(records[k].slug) && records[k].slug != ""
    requires forall j :: 0 <= j < k ==> records[j].name != records[k].name
    ensures Sheet.Init(SearchPart(HrefFor(records, records[k].name)), Config(records))
         == Sheet.LoadSheet(Config(records), records[k].slug)
  {
    SlugLinkRoundTrip(records[k].slug);
  }

  lemma LinkShowsFolder(records: seq<FolderRecord>, k: nat)
    requires k < |records| && IsSlug(records[k].slug) && records[k].slug != "" && |records[k].images| > 0
    requires forall j :: 0 <= j < k ==> records[j].name != records[k].name && records[j].slug != records[k].slug
    ensures Sheet.Init(SearchPart(HrefFor(records, records[k].name)), Config(records))
         == Sheet.Open(Sheet.Viewer(Some(records[k].title), Files.ImagePaths(records[k].name, records[k].images), 0, false))
  {
    LinkOpensFolder(records, k);
    Sheet.LoadSheetShows(records, records[k].slug, k);
  }

  /** A folder whose slug is empty gets a link the sheet page rejects as
      having no slug. */
  lemma EmptySlugLinkRedirects(records: seq<FolderRecord>, k: nat, config: ConfigFile)
    requires k < |records| && records[k].slug == ""
    requires forall j :: 0 <= j < k ==> records[j].name != records[k].name
    ensures Sheet.Init(SearchPart(HrefFor(records, records[k].name)), config) == Sheet.RedirectHome(Sheet.MissingSlug)
  {
    LinkBaseShape("");
    ParamRoundTrip("sheet.html", "slug", "");
  }

  /** The links of a page built from a scanned catalog all carry well-formed
      slugs. */
  lemma CatalogLinksAreSlugs(fs: Files.FileSystem)
    ensures ScanSheets(fs).Success? ==> forall r :: r in ScanSheets(fs).value ==> IsSlug(r.slug)
  {
  }
}
