/** The catalog builder: it scans the sheets directory once and produces the
    folder records that the viewer pages later read from `sheets-config.json`. */
module Catalog {
  import opened Wrappers
  import opened Text
  import opened Sequences
  import opened Collation
  import opened Files
  import opened Slug

  /** The extensions that mark an image, lower-case and with their dot. */
  const AllowedExtensions: seq<string> := [".jpg", ".jpeg", ".png", ".gif", ".bmp", ".webp", ".svg"]

  /** `path.extname` of a bare file name: from the last dot to the end, or
      nothing when there is no dot, when the last dot is the first character
      (a dotfile such as `.png`), or for `..`. */
  function ExtName(name: string): (r: string)
    ensures r == [] || (r[0] == '.' && |r| < |name| && r == name[|name| - |r|..])
    ensures |r| > 0 ==> forall i :: 1 <= i < |r| ==> r[i] != '.'
    ensures r == [] <==> LastIndexOf(name, '.').None? || LastIndexOf(name, '.') == Some(0) || name == ".."
    ensures r != [] ==> r == name[LastIndexOf(name, '.').value..]
  {
    match LastIndexOf(name, '.')
    case None => ""
    case Some(k) =>
      if k == 0 || name == ".." then ""
      else
        assert forall i :: 1 <= i < |name[k..]| ==> name[k..][i] == name[k + i];
        name[k..]
  }

  /** `isImageFile`: the lower-cased extension is one of the allowed ones. */
  predicate IsImageFile(name: string) {
    Lower(ExtName(name)) in AllowedExtensions
  }

  /** `name` ends with `ext`, ignoring case, and has something before it. */
  predicate EndsWithExtension(name: string, ext: string) {
    |name| > |ext| && Lower(name[|name| - |ext|..]) == ext
  }

  /** The reference reading of the filter: the name ends with an allowed
      extension, in any case, after at least one character. */
  predicate HasImageSuffix(name: string) {
    exists j :: 0 <= j < |AllowedExtensions| && EndsWithExtension(name, AllowedExtensions[j])
  }

  /** Every allowed extension is a dot followed by at least three lower-case
      letters. */
  lemma AllowedShape(j: nat)
    requires j < |AllowedExtensions|
    ensures var e := AllowedExtensions[j];
      && |e| >= 4 && e[0] == '.'
      && forall i :: 1 <= i < |e| ==> IsAsciiLowerLetter(e[i])
  {
  }

  /** `LastIndexOf` finds the dot after which no other dot follows. */
  lemma LastDotAt(name: string, k: nat)
    requires k < |name| && name[k] == '.'
    requires forall i :: k < i < |name| ==> name[i] != '.'
    ensures LastIndexOf(name, '.') == Some(k)
  {
  }

  /** An image file name is exactly one that ends, in any case, with an
      allowed extension preceded by something. */
  lemma ImageFileBySuffix(name: string)
    ensures IsImageFile(name) <==> HasImageSuffix(name)
  {
    if IsImageFile(name) {
      ExtensionIsSuffix(name);
    }
    if HasImageSuffix(name) {
      var j :| 0 <= j < |AllowedExtensions| && EndsWithExtension(name, AllowedExtensions[j]);
      SuffixIsExtension(name, j);
    }
  }

  lemma ExtensionIsSuffix(name: string)
    requires IsImageFile(name)
    ensures HasImageSuffix(name)
  {
    var e := Lower(ExtName(name));
    var j :| 0 <= j < |AllowedExtensions| && AllowedExtensions[j] == e;
    assert EndsWithExtension(name, AllowedExtensions[j]);
  }

  lemma SuffixIsExtension(name: string, j: nat)
    requires j < |AllowedExtensions| && EndsWithExtension(name, AllowedExtensions[j])
    ensures IsImageFile(name)
  {
    var e := AllowedExtensions[j];
    var k := |name| - |e|;
    var t := name[k..];
    AllowedShape(j);
    assert Lower(t) == e;
    assert name[k] == '.' by {
      assert LowerChar(t[0]) == '.';
    }
    forall i | k < i < |name| ensures name[i] != '.' {
      assert LowerChar(t[i - k]) == e[i - k];
    }
    LastDotAt(name, k);
    assert name != ".." by {
      assert |name| > 4;
    }
    assert ExtName(name) == t;
  }

  /** The filter ignores case: a name and its lower-cased form agree. */
  lemma ImageFileIgnoresCase(name: string)
    ensures IsImageFile(Lower(name)) == IsImageFile(name)
  {
    ImageFileBySuffix(name);
    ImageFileBySuffix(Lower(name));
    forall j | 0 <= j < |AllowedExtensions|
      ensures EndsWithExtension(Lower(name), AllowedExtensions[j]) == EndsWithExtension(name, AllowedExtensions[j])
    {
      EndsWithIgnoresCase(name, AllowedExtensions[j]);
    }
  }

  lemma EndsWithIgnoresCase(name: string, e: string)
    ensures EndsWithExtension(Lower(name), e) == EndsWithExtension(name, e)
  {
    if |name| > |e| {
      LowerSlice(name, |name| - |e|, |name|);
      LowerIdempotent(name[|name| - |e|..]);
    }
  }

  /** One entry of `sheets-config.json`. */
  datatype FolderRecord = FolderRecord(name: string, slug: string, title: string, images: seq<string>)

  /** Why the builder exits without writing a configuration. */
  datatype ScanError = SheetsDirMissing | ScanFailed

  /** What a viewer page gets when it fetches `sheets-config.json`: nothing
      usable (the fetch or the JSON parse failed), a document without a
      `folders` member, or the folder records. */
  datatype ConfigFile = Unreadable | NoFolderList | Config(folders: seq<FolderRecord>)

  predicate IsHidden(name: string) {
    |name| > 0 && name[0] == '.'
  }

  function FolderPath(item: string): string {
    Join(SheetsDir, item)
  }

  /** An entry of the sheets directory that becomes a folder record. */
  predicate IsFolderEntry(fs: FileSystem, item: string) {
    IsDir(fs, FolderPath(item)) && !IsHidden(item)
  }

  /** An entry of a folder that becomes one of its images. */
  predicate IsImageEntry(fs: FileSystem, dir: string, file: string) {
    IsFile(fs, Join(dir, file)) && IsImageFile(file)
  }

  /** Every path the builder calls `statSync` on exists: each entry of the
      sheets directory, and each entry of each folder it descends into. */
  predicate Readable(fs: FileSystem, items: seq<string>) {
    forall item :: item in items ==>
      && FolderPath(item) in fs
      && (IsFolderEntry(fs, item) ==>
            forall file :: file in Entries(fs, FolderPath(item)) ==> Join(FolderPath(item), file) in fs)
  }

  /** The entries of the folder that qualify as images, in listing order. */
  function ImagesIn(fs: FileSystem, item: string): seq<string> {
    Filter(Entries(fs, FolderPath(item)), file => IsImageEntry(fs, FolderPath(item), file))
  }

  /** The record of one folder: its name as both name and title, its slug,
      and its images in natural order. */
  function BuildRecord(fs: FileSystem, item: string): (r: FolderRecord)
    ensures r.name == item && r.title == item && r.slug == CreateSlug(item) && IsSlug(r.slug)
    ensures forall file :: file in r.images <==>
      file in Entries(fs, FolderPath(item)) && IsImageEntry(fs, FolderPath(item), file)
    ensures multiset(r.images) == multiset(ImagesIn(fs, item))
    ensures Sorted(r.images, NaturalLeq)
  {
    NaturalLeqIsTotalPreorder();
    SortByMembers(ImagesIn(fs, item), NaturalLeq);
    FolderRecord(item, CreateSlug(item), item, SortBy(ImagesIn(fs, item), NaturalLeq))
  }

  /** The final sort of the builder: by folder name, in locale order. */
  predicate RecordLeq(a: FolderRecord, b: FolderRecord) {
    LocaleLeq(a.name, b.name)
  }

  lemma RecordLeqIsTotalPreorder()
    ensures IsTotalPreorder(RecordLeq)
  {
    CharLtIsStrictTotalOrder();
    KeyOrderIsTotalPreorder(RecordLeq, (r: FolderRecord) => Fold(r.name), CharLt);
  }

  function RecordName(r: FolderRecord): string {
    r.name
  }

  /** The entries of the sheets directory that become records, in listing order. */
  function FolderNames(fs: FileSystem): seq<string> {
    Filter(Entries(fs, SheetsDir), item => IsFolderEntry(fs, item))
  }

  /** `scanSheetsDirectory`. A missing sheets directory ends the builder with
      an error; so does any `readdirSync` or `statSync` that throws, which
      happens when the sheets path is not a directory or when a listed entry
      does not exist. */
  function ScanSheets(fs: FileSystem): (r: Result<seq<FolderRecord>, ScanError>)
    ensures r == Failure(SheetsDirMissing) <==> SheetsDir !in fs
    ensures r == Failure(ScanFailed) <==>
      SheetsDir in fs && (!IsDir(fs, SheetsDir) || !Readable(fs, fs[SheetsDir].entries))
    ensures r.Success? ==> Sorted(r.value, RecordLeq)
    ensures r.Success? ==> multiset(MapSeq(RecordName, r.value)) == multiset(FolderNames(fs))
    ensures r.Success? ==> forall k :: 0 <= k < |r.value| ==> r.value[k] == BuildRecord(fs, r.value[k].name)
  {
    if SheetsDir !in fs then Failure(SheetsDirMissing)
    else if !IsDir(fs, SheetsDir) || !Readable(fs, fs[SheetsDir].entries) then Failure(ScanFailed)
    else
      var names := FolderNames(fs);
      var records := MapSeq((item: string) => BuildRecord(fs, item), names);
      RecordLeqIsTotalPreorder();
      var sorted := SortBy(records, RecordLeq);
      ScanFacts(fs, names, records, sorted);
      Success(sorted)
  }

  /** Sorting the built records keeps one record per folder name, each the
      record of its own name. */
  lemma ScanFacts(fs: FileSystem, names: seq<string>, records: seq<FolderRecord>, sorted: seq<FolderRecord>)
    requires records == MapSeq((item: string) => BuildRecord(fs, item), names)
    requires multiset(sorted) == multiset(records)
    ensures multiset(MapSeq(RecordName, sorted)) == multiset(names)
    ensures forall k :: 0 <= k < |sorted| ==> sorted[k] == BuildRecord(fs, sorted[k].name)
  {
    MapPermutation(RecordName, sorted, records);
    assert MapSeq(RecordName, records) == names;
    BuiltRecordsOwnName(fs, names, records);
    forall k | 0 <= k < |sorted| ensures sorted[k] in records {
      assert sorted[k] in multiset(records);
    }
  }

  /** Each built record is the record of its own name. */
  lemma BuiltRecordsOwnName(fs: FileSystem, names: seq<string>, records: seq<FolderRecord>)
    requires records == MapSeq((item: string) => BuildRecord(fs, item), names)
    ensures forall x :: x in records ==> x == BuildRecord(fs, x.name)
  {
    forall x | x in records ensures x == BuildRecord(fs, x.name) {
      var j :| 0 <= j < |records| && records[j] == x;
    }
  }

  /** Every record comes from a visible directory of the sheets directory,
      and every visible directory yields a record. */
  lemma ScanCoversFolders(fs: FileSystem)
    requires ScanSheets(fs).Success?
    ensures forall r :: r in ScanSheets(fs).value ==>
      r.name in fs[SheetsDir].entries && IsFolderEntry(fs, r.name)
    ensures forall item :: item in fs[SheetsDir].entries && IsFolderEntry(fs, item) ==>
      exists r :: r in ScanSheets(fs).value && r.name == item
  {
    var records := ScanSheets(fs).value;
    assert IsDir(fs, SheetsDir);
    FolderNamesMembers(fs);
    NamesCovered(records, FolderNames(fs));
  }

  lemma FolderNamesMembers(fs: FileSystem)
    requires IsDir(fs, SheetsDir)
    ensures forall n :: n in FolderNames(fs) <==> n in fs[SheetsDir].entries && IsFolderEntry(fs, n)
  {
  }

  /** Records whose names are, as a multiset, the given names. */
  lemma NamesCovered(records: seq<FolderRecord>, names: seq<string>)
    requires multiset(MapSeq(RecordName, records)) == multiset(names)
    ensures forall r :: r in records ==> r.name in names
    ensures forall n :: n in names ==> exists r :: r in records && r.name == n
  {
    var mapped := MapSeq(RecordName, records);
    forall r | r in records ensures r.name in names {
      var k :| 0 <= k < |records| && records[k] == r;
      assert mapped[k] == r.name;
      assert r.name in multiset(names);
    }
    forall n | n in names ensures exists r :: r in records && r.name == n {
      assert n in multiset(mapped);
      var k :| 0 <= k < |mapped| && mapped[k] == n;
      assert records[k] in records;
    }
  }
}
