/** The part of the file system the report writer touches: a set of directories and a
    map from file path to file contents. */
module Files {

  type Path = string

  /** The name separator; the platform's separator character is fixed to '/'. */
  const Separator: char := '/'

  /** The path of the entry `name` inside directory `dir`. */
  function Child(dir: Path, name: string): (p: Path)
    ensures |p| == |dir| + 1 + |name|
    ensures p[..|dir|] == dir && p[|dir|] == Separator && p[|dir| + 1..] == name
  {
    dir + [Separator] + name
  }

  class FileSystem {
    var dirs: set<Path>
    var files: map<Path, string>

    constructor (dirs: set<Path>, files: map<Path, string>)
      ensures this.dirs == dirs && this.files == files
    {
      this.dirs := dirs;
      this.files := files;
    }

    /** Creates `dir` (parents are not modelled); an existing directory is kept. */
    method MakeDirectories(dir: Path)
      modifies this
      ensures dirs == old(dirs) + {dir}
      ensures files == old(files)
    {
      dirs := dirs + {dir};
    }

    /** Replaces the contents of `path` by `content`, unless the write fails with an
        I/O error, in which case nothing changes. */
    method Write(path: Path, content: string, fails: bool) returns (ok: bool)
      modifies this
      ensures ok == !fails
      ensures files == if fails then old(files) else old(files)[path := content]
      ensures dirs == old(dirs)
    {
      ok := !fails;
      if ok {
        files := files[path := content];
      }
    }
  }
}
