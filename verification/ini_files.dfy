/** Parsing a file of a file system, with what success and failure mean for its caller. */
module IniFiles {
  import opened Wrappers
  import opened IniScript
  import opened IniParser
  import opened IniIncludes

  /** Every file on an include chain from `root` is well formed, and no chain meets a file twice. */
  ghost predicate WellFormedTree(lib: Library, root: Path) {
    forall ps :: Chain(lib, ps) && ps[0] == root ==> Distinct(ps) && LinesOk(lib, Top(ps), lib.scripts[Top(ps)])
  }

  /** `parse` of a file that can be opened, by its canonical path. */
  method ParseFile(fs: FileSystem, p: Path) returns (r: Result<seq<Pair>, Failure>)
    requires p in fs.files
    ensures r == Read(LibraryOf(fs), p, Script(fs.files[p]))
    ensures r.Ok? <==> WellFormedTree(LibraryOf(fs), p)
    ensures r.Ok? ==> r.value == AllPairs(LibraryOf(fs), p, "", Script(fs.files[p]))
    ensures r.Err? ==> PointsAt(LibraryOf(fs), [p], Script(fs.files[p]), 1, r.error)
  {
    r := Parse(fs, fs.files[p], p);
    ghost var lib := LibraryOf(fs);
    ReadFileSucceedsIff(lib, p);
    if r.Ok? {
      ReadIsReplacement(lib, p, lib.scripts[p]);
    } else {
      ReadFailurePoints(lib, p, lib.scripts[p]);
    }
  }
}
