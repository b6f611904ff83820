/** The directory tree the catalog builder and the PHP endpoint read, as a
    value: each path maps to what `stat` reports for it. A path that is not a
    key does not exist, so `statSync` throws on it and `is_dir`, `is_file`
    and `existsSync` are false. */
module Files {
  /** A directory lists its entry names, without `.` and `..`; `Other` is
      anything that is neither a regular file nor a directory. */
  datatype Node = File | Directory(entries: seq<string>) | Other

  type FileSystem = map<string, Node>

  /** The sheets directory, relative to the project root. */
  const SheetsDir: string := "sheets"

  /** A path below `dir`, as both programs build it: `dir + "/" + name`. */
  function Join(dir: string, name: string): string {
    dir + "/" + name
  }

  predicate IsDir(fs: FileSystem, path: string) {
    path in fs && fs[path].Directory?
  }

  predicate IsFile(fs: FileSystem, path: string) {
    path in fs && fs[path].File?
  }

  /** The entries of a directory; nothing for any other path. */
  function Entries(fs: FileSystem, path: string): (r: seq<string>)
    ensures IsDir(fs, path) ==> r == fs[path].entries
    ensures !IsDir(fs, path) ==> r == []
  {
    if IsDir(fs, path) then fs[path].entries else []
  }

  /** The path a page requests an image by: `sheets/<folder>/<image>`. */
  function ImagePath(folder: string, image: string): string {
    Join(Join(SheetsDir, folder), image)
  }

  /** The paths of a folder's images, one for one and in order. */
  function ImagePaths(folder: string, images: seq<string>): (r: seq<string>)
    ensures |r| == |images|
    ensures forall i :: 0 <= i < |images| ==> r[i] == ImagePath(folder, images[i])
  {
    seq(|images|, i requires 0 <= i < |images| => ImagePath(folder, images[i]))
  }
}
