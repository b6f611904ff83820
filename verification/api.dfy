/** The PHP endpoint of the gallery page: `getFolders` lists the folders of
    the sheets directory, `getImages` the images of one folder, and any other
    action is refused. */
module Api {
  import opened Wrappers
  import opened Text
  import opened Sequences
  import opened Collation
  import opened Files
  import Catalog

  /** The query parameters `action` and `folder`, each possibly absent. */
  datatype Request = Request(action: Option<string>, folder: Option<string>)

  /** The JSON reply: `success: true` with a folder list or with a folder's
      images, or `success: false` with an error message. */
  datatype Response =
    | FolderList(folders: seq<string>)
    | ImageList(folder: string, images: seq<string>)
    | ErrorReply(message: string)

  const FolderRequired := "Folder name required"
  const FolderNotFound := "Folder not found"
  const InvalidAction := "Invalid action"

  /** The extensions of the endpoint's filter: no dot, lower-case. */
  const PhpExtensions: seq<string> := ["jpg", "jpeg", "png", "gif", "bmp", "webp", "svg"]

  /** PHP's `empty` on a query string: the empty string and `"0"`. */
  predicate PhpEmpty(s: string) {
    s == "" || s == "0"
  }

  /** `scandir` with its default order: the entries plus `.` and `..`,
      sorted by code point. */
  function ScanDir(fs: FileSystem, path: string): (r: seq<string>)
    ensures forall x :: x in r <==> x in [".", ".."] + Entries(fs, path)
  {
    SortByMembers([".", ".."] + Entries(fs, path), CodePointLeq);
    SortBy([".", ".."] + Entries(fs, path), CodePointLeq)
  }

  predicate IsDotEntry(item: string) {
    item == "." || item == ".."
  }

  /** An entry of the sheets directory that `getFolders` lists. */
  predicate IsListedFolder(fs: FileSystem, item: string) {
    !IsDotEntry(item) && IsDir(fs, Join(SheetsDir, item))
  }

  function ListedFolderTest(fs: FileSystem): string -> bool {
    item => IsListedFolder(fs, item)
  }

  /** What `scandir` gives for the sheets directory, or nothing when it is
      missing. */
  function SheetsListing(fs: FileSystem): seq<string> {
    if IsDir(fs, SheetsDir) then ScanDir(fs, SheetsDir) else []
  }

  /** `getFolders`: the directories among the entries of the sheets
      directory, hidden ones included, sorted; nothing when the sheets
      directory is missing or is not a directory. */
  function GetFolders(fs: FileSystem): (r: seq<string>)
    ensures forall x :: x in r <==> IsDir(fs, SheetsDir) && x in fs[SheetsDir].entries && IsListedFolder(fs, x)
    ensures Sorted(r, CodePointLeq)
    ensures !IsDir(fs, SheetsDir) ==> r == []
    ensures multiset(r) == multiset(Filter(SheetsListing(fs), ListedFolderTest(fs)))
  {
    var items := SheetsListing(fs);
    CodePointLeqIsTotalPreorder();
    DotsAside(fs, SheetsDir);
    SortedFilter(items, ListedFolderTest(fs), CodePointLeq)
  }

  /** Apart from `.` and `..`, `scandir` lists the directory's entries. */
  lemma DotsAside(fs: FileSystem, path: string)
    ensures forall x :: !IsDotEntry(x) ==> (x in ScanDir(fs, path) <==> x in Entries(fs, path))
  {
  }

  /** `pathinfo($item, PATHINFO_EXTENSION)`: the text after the last dot,
      or nothing when there is no dot. */
  function PhpExtension(name: string): (r: string)
    ensures '.' !in r
    ensures '.' in name ==> |r| < |name| && r == name[|name| - |r|..] && name[|name| - |r| - 1] == '.'
    ensures '.' !in name ==> r == ""
  {
    match LastIndexOf(name, '.')
    case None => ""
    case Some(k) =>
      var ext := name[k + 1..];
      assert forall i :: 0 <= i < |ext| ==> ext[i] == name[k + 1 + i];
      ext
  }

  /** `strtolower`, which maps only the ASCII capitals. */
  function AsciiLowerChar(c: char): char {
    if 'A' <= c <= 'Z' then (c as int + 32) as char else c
  }

  function AsciiLower(s: string): (r: string)
    ensures |r| == |s|
    ensures forall i :: 0 <= i < |s| ==> r[i] == AsciiLowerChar(s[i])
  {
    seq(|s|, i requires 0 <= i < |s| => AsciiLowerChar(s[i]))
  }

  /** The endpoint's image test: the lower-cased extension is allowed. */
  predicate PhpIsImage(name: string) {
    AsciiLower(PhpExtension(name)) in PhpExtensions
  }

  /** An entry of a folder that `getImages` returns. */
  predicate IsListedImage(fs: FileSystem, path: string, item: string) {
    !IsDotEntry(item) && IsFile(fs, Join(path, item)) && PhpIsImage(item)
  }

  function ListedImageTest(fs: FileSystem, path: string): string -> bool {
    item => IsListedImage(fs, path, item)
  }

  /** `getImages`. A folder parameter that is absent or empty in PHP's sense
      is refused, as is one that does not name a directory; otherwise the
      reply lists the folder's image files in natural order. */
  function GetImages(fs: FileSystem, folder: string): (r: Response)
    ensures PhpEmpty(folder) <==> r == ErrorReply(FolderRequired)
    ensures r == ErrorReply(FolderNotFound) <==> !PhpEmpty(folder) && !IsDir(fs, Join(SheetsDir, folder))
    ensures r.ImageList? ==> r.folder == folder
    ensures r.ImageList? ==> forall x :: x in r.images <==>
      x in Entries(fs, Join(SheetsDir, folder)) && IsListedImage(fs, Join(SheetsDir, folder), x)
    ensures r.ImageList? ==> Sorted(r.images, NatSortLeq)
    ensures r.ImageList? ==>
      multiset(r.images) == multiset(Filter(ScanDir(fs, Join(SheetsDir, folder)), ListedImageTest(fs, Join(SheetsDir, folder))))
    ensures r.ErrorReply? || r.ImageList?
  {
    if PhpEmpty(folder) then ErrorReply(FolderRequired)
    else
      var path := Join(SheetsDir, folder);
      if !IsDir(fs, path) then ErrorReply(FolderNotFound)
      else
        NatSortLeqIsTotalPreorder();
        DotsAside(fs, path);
        var sorted := SortedFilter(ScanDir(fs, path), ListedImageTest(fs, path), NatSortLeq);
        ImageList(folder, sorted)
  }

  /** The endpoint: dispatch on `action`, which counts as empty when absent. */
  function Handle(fs: FileSystem, req: Request): (r: Response)
    ensures req.action == Some("getFolders") <==> r.FolderList?
    ensures req.action == Some("getFolders") ==> r == FolderList(GetFolders(fs))
    ensures req.action == Some("getImages") ==>
      r == GetImages(fs, match req.folder case None => "" case Some(f) => f)
    ensures req.action != Some("getFolders") && req.action != Some("getImages") <==> r == ErrorReply(InvalidAction)
    ensures r == ErrorReply(FolderRequired) <==>
      req.action == Some("getImages") && PhpEmpty(match req.folder case None => "" case Some(f) => f)
    ensures r == ErrorReply(FolderNotFound) <==>
      req.action == Some("getImages") && req.folder.Some? && !PhpEmpty(req.folder.value)
      && !IsDir(fs, Join(SheetsDir, req.folder.value))
  {
    var action := match req.action case None => "" case Some(a) => a;
    if action == "getFolders" then FolderList(GetFolders(fs))
    else if action == "getImages" then GetImages(fs, match req.folder case None => "" case Some(f) => f)
    else ErrorReply(InvalidAction)
  }

  /** A character `strtolower` maps to a lower-case ASCII letter is an ASCII
      letter, and `toLowerCase` maps it to the same letter. */
  lemma AsciiLowerAgrees(c: char)
    requires IsAsciiLowerLetter(AsciiLowerChar(c)) || IsAsciiLowerLetter(LowerChar(c))
    ensures AsciiLowerChar(c) == LowerChar(c)
  {
  }

  /** Outside dotfiles, the endpoint's image test and the catalog builder's
      agree: both look at the text after the last dot and ignore case. */
  lemma ImageTestsAgree(name: string)
    requires LastIndexOf(name, '.') != Some(0)
    ensures PhpIsImage(name) <==> Catalog.IsImageFile(name)
  {
    if '.' in name && name != ".." {
      ExtensionsRelate(name);
      TestsAgreeOnExtension(PhpExtension(name));
    } else if name == ".." {
      assert PhpExtension(name) == "";
    }
  }

  /** After a dot that is not the first character, `path.extname` is that
      dot followed by what `pathinfo` reports. */
  lemma ExtensionsRelate(name: string)
    requires '.' in name && name != ".." && LastIndexOf(name, '.') != Some(0)
    ensures Catalog.ExtName(name) == ['.'] + PhpExtension(name)
  {
    var k := LastIndexOf(name, '.').value;
    ExtNameAt(name, k);
    PhpExtensionAt(name, k);
    assert name[k..] == ['.'] + name[k + 1..];
  }

  lemma ExtNameAt(name: string, k: nat)
    requires LastIndexOf(name, '.') == Some(k) && k != 0 && name != ".."
    ensures Catalog.ExtName(name) == name[k..]
  {
  }

  lemma PhpExtensionAt(name: string, k: nat)
    requires LastIndexOf(name, '.') == Some(k)
    ensures k < |name| && PhpExtension(name) == name[k + 1..]
  {
  }

  /** The two tests agree on an extension, taken with and without its dot. */
  lemma TestsAgreeOnExtension(ext: string)
    ensures AsciiLower(ext) in PhpExtensions <==> Lower(['.'] + ext) in Catalog.AllowedExtensions
  {
    assert Lower(['.'] + ext) == ['.'] + Lower(ext);
    if AsciiLower(ext) in PhpExtensions {
      CaseFoldsAgree(ext, AsciiLower(ext), true);
      AllowedWithDot(AsciiLower(ext));
    }
    if Lower(['.'] + ext) in Catalog.AllowedExtensions {
      AllowedWithDot(Lower(ext));
      CaseFoldsAgree(ext, Lower(ext), false);
    }
  }

  /** An extension with its dot is allowed by the catalog builder exactly
      when the extension alone is allowed by the endpoint. */
  lemma AllowedWithDot(ext: string)
    ensures ['.'] + ext in Catalog.AllowedExtensions <==> ext in PhpExtensions
  {
    if ext in PhpExtensions {
      var j :| 0 <= j < |PhpExtensions| && PhpExtensions[j] == ext;
      assert Catalog.AllowedExtensions[j] == ['.'] + ext;
    }
    if ['.'] + ext in Catalog.AllowedExtensions {
      var j :| 0 <= j < |Catalog.AllowedExtensions| && Catalog.AllowedExtensions[j] == ['.'] + ext;
      assert (['.'] + ext)[1..] == ext;
      assert Catalog.AllowedExtensions[j][1..] == PhpExtensions[j];
    }
  }

  /** When either lower-casing of `ext` gives an allowed extension, the two
      lower-casings coincide. */
  lemma CaseFoldsAgree(ext: string, lowered: string, ascii: bool)
    requires lowered == (if ascii then AsciiLower(ext) else Lower(ext))
    requires lowered in PhpExtensions
    ensures AsciiLower(ext) == Lower(ext)
  {
    var j :| 0 <= j < |PhpExtensions| && PhpExtensions[j] == lowered;
    forall i | 0 <= i < |ext| ensures AsciiLower(ext)[i] == Lower(ext)[i] {
      AllowedLetters(j, i);
      AsciiLowerAgrees(ext[i]);
    }
  }

  lemma AllowedLetters(j: nat, i: nat)
    requires j < |PhpExtensions| && i < |PhpExtensions[j]|
    ensures IsAsciiLowerLetter(PhpExtensions[j][i])
  {
  }

  /** A dotfile such as `.png` is an image to the endpoint but not to the
      catalog builder, for which it has no extension. */
  lemma DotfileTestsDiffer(name: string)
    requires name == ".png"
    ensures PhpIsImage(name) && !Catalog.IsImageFile(name)
  {
    assert LastIndexOf(name, '.') == Some(0);
    assert PhpExtension(name) == "png";
    assert AsciiLower("png") == "png";
  }
}
