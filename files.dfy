// The file system as extraction sees it through Poco::File and std::ofstream:
// regular files with their sizes and a set of directories, all named by
// absolute paths without a trailing '/'. Relative names are looked up from the
// process's working directory.
module Files {
  import opened Paths

  datatype Disk = Disk(files: map<string, nat>, dirs: set<string>)

  /** No path is both a regular file and a directory. */
  predicate Valid(d: Disk)
  {
    d.files.Keys !! d.dirs
  }

  /** The effect of File::createDirectories: a path that already exists, as a file or as a
      directory, is left alone; otherwise it becomes a directory. */
  function AddDirectory(d: Disk, p: string): (r: Disk)
    ensures Valid(d) ==> Valid(r)
    ensures r.files == d.files && p !in d.files ==> p in r.dirs
    ensures forall q :: q in r.dirs && q != p ==> q in d.dirs
  {
    if p in d.files || p in d.dirs then d else d.(dirs := d.dirs + {p})
  }

  /** A regular file `p` now holds `n` bytes (opening with truncation, then writing). */
  function WriteFile(d: Disk, p: string, n: nat): (r: Disk)
    requires p !in d.dirs
    ensures Valid(d) ==> Valid(r)
    ensures r.dirs == d.dirs && p in r.files && r.files[p] == n
    ensures forall q :: q != p ==> (q in r.files <==> q in d.files)
  {
    d.(files := d.files[p := n])
  }

  /** Writing a file again replaces what the earlier write left in it. */
  lemma WriteFileTwice(d: Disk, p: string, m: nat, n: nat)
    requires p !in d.dirs
    ensures WriteFile(WriteFile(d, p, m), p, n) == WriteFile(d, p, n)
  {
    assert WriteFile(WriteFile(d, p, m), p, n).files == WriteFile(d, p, n).files;
  }

  /** File::remove of a regular file. */
  function RemoveFile(d: Disk, p: string): (r: Disk)
    ensures Valid(d) ==> Valid(r)
    ensures r.dirs == d.dirs && p !in r.files
    ensures forall q :: q != p ==> (q in r.files <==> q in d.files)
  {
    d.(files := d.files - {p})
  }

  /** The absolute path a name refers to, looked up from working directory `cwd`. */
  function Locate(cwd: string, p: string): string
  {
    ResolvePath(cwd, StripSlash(p))
  }

  class FileSystem {
    /** The working directory relative names are looked up from. */
    const cwd: string
    var files: map<string, nat>
    var dirs: set<string>

    function State(): Disk
      reads this
    {
      Disk(files, dirs)
    }

    constructor (workingDir: string, d: Disk)
      ensures cwd == workingDir && State() == d
    {
      cwd := workingDir;
      files := d.files;
      dirs := d.dirs;
    }

    method Exists(p: string) returns (b: bool)
      ensures b <==> Locate(cwd, p) in files || Locate(cwd, p) in dirs
    {
      var q := Locate(cwd, p);
      b := q in files || q in dirs;
    }

    method IsFile(p: string) returns (b: bool)
      ensures b <==> Locate(cwd, p) in files
    {
      b := Locate(cwd, p) in files;
    }

    method IsDirectory(p: string) returns (b: bool)
      ensures b <==> Locate(cwd, p) in dirs
    {
      b := Locate(cwd, p) in dirs;
    }

    method GetSize(p: string) returns (n: nat)
      requires Locate(cwd, p) in files
      ensures n == files[Locate(cwd, p)]
    {
      n := files[Locate(cwd, p)];
    }

    method CreateDirectories(p: string)
      modifies this
      ensures State() == AddDirectory(old(State()), Locate(cwd, p))
    {
      var q := Locate(cwd, p);
      if q !in files && q !in dirs {
        dirs := dirs + {q};
      }
    }

    method Remove(p: string)
      modifies this
      ensures State() == RemoveFile(old(State()), Locate(cwd, p))
    {
      files := files - {Locate(cwd, p)};
    }

    /** std::ofstream on `p`: `ok` is whether the operating system lets the file be
        created (permissions, a missing parent); a directory is never opened. An
        opened file is truncated to 0 bytes. */
    method Open(p: string, ok: bool) returns (isOpen: bool)
      modifies this
      ensures isOpen <==> ok && Locate(cwd, p) !in old(dirs)
      ensures isOpen ==> State() == WriteFile(old(State()), Locate(cwd, p), 0)
      ensures !isOpen ==> State() == old(State())
    {
      var q := Locate(cwd, p);
      isOpen := ok && q !in dirs;
      if isOpen {
        files := files[q := 0];
      }
    }

    /** The bytes written to an opened file: it now holds `n` bytes. */
    method Write(p: string, n: nat)
      requires Locate(cwd, p) in files && Locate(cwd, p) !in dirs
      modifies this
      ensures State() == WriteFile(old(State()), Locate(cwd, p), n)
    {
      files := files[Locate(cwd, p) := n];
    }
  }
}
