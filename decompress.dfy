// Extraction of an archive's entries into a directory (Poco::Zip::Decompress):
// the output directory check of the constructor, the per-entry decision of
// handleZipEntry with its events and file removals, and the name-to-path
// mapping that the success handler onOk fills in. The effect of one entry is
// defined as a value (Extract); the Decompress class is proved against it.
module Decompression {
  import opened Wrappers
  import opened ZipCommon
  import opened HeaderFormat
  import opened Paths
  import opened Files

  /** The settings a Decompress object was built with. */
  datatype Config = Config(outDir: string, flattenDirs: bool, keepIncompleteFiles: bool)

  /** What copying an entry's payload into the output file did (ZipInputStream and
      StreamCopier::copyStream): the bytes written and whether the CRC matched, or
      an exception after some bytes were written. */
  datatype Copy = Copied(written: nat, crcValid: bool) | CopyThrew(written: nat)

  /** Why an entry was not extracted. */
  datatype Reason =
    | IllegalName   // the checked name contains ILLEGAL_PATH (a caught ZipException)
    | OpenFailed    // the output stream could not be opened
    | CopyFailed    // copying the payload threw
    | CreateFailed  // the output file does not exist as a regular file
    | CrcMismatch   // the payload's CRC did not match
    | SizeMismatch  // the file size differs from the header's uncompressed size

  /** A notification: EOk with the header and the entry's relative path, or EError
      with the header and the reason. */
  datatype Event = EOk(header: Header, path: string) | EError(header: Header, reason: Reason)

  /** How handleZipEntry ended: it returned a value, or a directory entry's illegal
      name threw a ZipException that is not caught. */
  datatype Outcome = Returned(extracted: bool) | ThrewIllegalName

  /** The effect of handling one entry: how it ended, the file system afterwards and
      the event notified, if any. */
  datatype Step = Step(outcome: Outcome, disk: Disk, event: Option<Event>)

  function Logged(e: Option<Event>): seq<Event>
  {
    if e.Some? then [e.value] else []
  }

  /** The name checked and extracted: in flatten mode only the last segment of the
      entry name taken as a file name, that is the part after its last '/'. */
  function CheckedName(name: string, flattenDirs: bool): (r: string)
    ensures flattenDirs ==>
      var f := MakeFile(name);
      && '/' !in r && |r| <= |f| && r == f[|f| - |r|..]
      && (|r| < |f| ==> f[|f| - |r| - 1] == '/')
    ensures !flattenDirs ==> r == name
  {
    if flattenDirs then LastSegment(MakeFile(name)) else name
  }

  function Failure(d: Disk, h: Header, reason: Reason): Step
  {
    Step(Returned(false), d, Some(EError(h, reason)))
  }

  /** An incomplete output file is removed unless incomplete files are kept. */
  function Cleanup(d: Disk, p: string, keepIncompleteFiles: bool): (r: Disk)
    ensures keepIncompleteFiles ==> r == d
    ensures !keepIncompleteFiles ==>
      && r.dirs == d.dirs && p !in r.files
      && forall q :: q != p ==> (q in r.files <==> q in d.files) && (q in d.files ==> r.files[q] == d.files[q])
  {
    if keepIncompleteFiles then d else RemoveFile(d, p)
  }

  /** handleZipEntry for header `h`, with working directory `cwd` and file system
      `d`; `openOk` says whether the system lets the output file be created and
      `copy` what copying the payload did. Paths on the file system side go through
      Locate, so the relative names the source hands to Poco::File are looked up
      from `cwd`. */
  function Extract(cfg: Config, cwd: string, d: Disk, h: Header, openOk: bool, copy: Copy): (s: Step)
    // A directory entry notifies nothing, writes no file, and returns true unless
    // its name is illegal outside flatten mode.
    ensures IsDirectory(h) ==>
      && s.event == None && s.disk.files == d.files
      && (s.outcome == ThrewIllegalName <==> !cfg.flattenDirs && Contains(h.fileName, ILLEGAL_PATH))
      && (s.outcome != ThrewIllegalName ==> s.outcome == Returned(true))
    // In flatten mode, and when the name is illegal, a directory entry changes nothing.
    ensures IsDirectory(h) && (cfg.flattenDirs || s.outcome == ThrewIllegalName) ==> s.disk == d
    // A file entry returns a value and notifies exactly one event about `h`: true
    // with EOk, false with EError.
    ensures !IsDirectory(h) ==>
      && s.outcome.Returned? && s.event.Some? && s.event.value.header == h
      && (s.outcome.extracted <==> s.event.value.EOk?)
    ensures Valid(d) ==> Valid(s.disk)
  {
    if IsDirectory(h) then
      if cfg.flattenDirs then Step(Returned(true), d, None)
      else if Contains(h.fileName, ILLEGAL_PATH) then Step(ThrewIllegalName, d, None)
      else Step(Returned(true), AddDirectory(d, Locate(cwd, MakeDirectory(h.fileName))), None)
    else
      var name := CheckedName(h.fileName, cfg.flattenDirs);
      if Contains(name, ILLEGAL_PATH) then Failure(d, h, IllegalName)
      else
        var file := MakeFile(name);
        var dest := JoinPath(cfg.outDir, file);
        var d1 := if Parent(dest) != "" then AddDirectory(d, Locate(cwd, Parent(dest))) else d;
        WriteOutput(d1, h, file, Locate(cwd, dest), Locate(cwd, file), openOk, copy, cfg.keepIncompleteFiles)
  }

  /** The steps of a file entry from opening its output on: the output `target` is
      opened and written, then the file at `local` is checked, and the entry is
      reported under `file`. */
  function WriteOutput(d: Disk, h: Header, file: string, target: string, local: string,
                       openOk: bool, copy: Copy, keepIncompleteFiles: bool): (s: Step)
    ensures s.outcome.Returned? && s.event.Some? && s.event.value.header == h
    ensures s.outcome.extracted <==> s.event.value.EOk?
    ensures Valid(d) ==> Valid(s.disk)
  {
    if !openOk || target in d.dirs then Failure(d, h, OpenFailed)
    else
      var written := WriteFile(d, target, copy.written);
      if copy.CopyThrew? then Failure(written, h, CopyFailed)
      else if local !in written.files then Failure(written, h, CreateFailed)
      else if !copy.crcValid then
        Failure(Cleanup(written, local, keepIncompleteFiles), h, CrcMismatch)
      else if written.files[local] != h.uncompressedSize && !SearchCRCAndSizesAfterData(h.raw) then
        Failure(Cleanup(written, local, keepIncompleteFiles), h, SizeMismatch)
      else Step(Returned(true), written, Some(EOk(h, file)))
  }

  /** The relative path a file entry is reported under and looked up by. */
  function RelativeFile(cfg: Config, h: Header): string
  {
    MakeFile(CheckedName(h.fileName, cfg.flattenDirs))
  }

  /** The absolute path a file entry is written to. */
  function Target(cfg: Config, cwd: string, h: Header): string
  {
    Locate(cwd, JoinPath(cfg.outDir, RelativeFile(cfg, h)))
  }

  /** The file system after a file entry's parent directory is created. */
  function WithParent(cfg: Config, cwd: string, d: Disk, h: Header): (r: Disk)
    ensures r.files == d.files && r.dirs >= d.dirs
    // The one directory added, if any, is the output path's parent, and it is
    // added unless the path names an existing file.
    ensures var dest := JoinPath(cfg.outDir, RelativeFile(cfg, h));
      && r.dirs <= d.dirs + {Locate(cwd, Parent(dest))}
      && (Parent(dest) != "" && Locate(cwd, Parent(dest)) !in d.files ==> Locate(cwd, Parent(dest)) in r.dirs)
      && (Parent(dest) == "" ==> r == d)
    ensures Valid(d) ==> Valid(r)
  {
    WithParentOf(cwd, d, JoinPath(cfg.outDir, RelativeFile(cfg, h)))
  }

  /** The file system after the parent directory of `dest` is created, when `dest`
      has one. */
  function WithParentOf(cwd: string, d: Disk, dest: string): (r: Disk)
    ensures r.files == d.files && r.dirs >= d.dirs
    ensures r.dirs <= d.dirs + {Locate(cwd, Parent(dest))}
    ensures Parent(dest) != "" && Locate(cwd, Parent(dest)) !in d.files ==> Locate(cwd, Parent(dest)) in r.dirs
    ensures Parent(dest) == "" ==> r == d
    ensures Valid(d) ==> Valid(r)
  {
    if Parent(dest) != "" then AddDirectory(d, Locate(cwd, Parent(dest))) else d
  }

  /** A file entry with a legal name: its parent directory is created, then its
      output is written and checked. */
  lemma ExtractFileStages(cfg: Config, cwd: string, d: Disk, h: Header, openOk: bool, copy: Copy)
    requires !IsDirectory(h) && !Contains(CheckedName(h.fileName, cfg.flattenDirs), ILLEGAL_PATH)
    ensures WithParent(cfg, cwd, d, h).files == d.files
    ensures WithParent(cfg, cwd, d, h).dirs >= d.dirs
    ensures WithParent(cfg, cwd, d, h).dirs <= d.dirs + {Locate(cwd, Parent(JoinPath(cfg.outDir, RelativeFile(cfg, h))))}
    ensures Valid(d) ==> Valid(WithParent(cfg, cwd, d, h))
    ensures Extract(cfg, cwd, d, h, openOk, copy) ==
      WriteOutput(WithParent(cfg, cwd, d, h), h, RelativeFile(cfg, h), Target(cfg, cwd, h),
                  Locate(cwd, RelativeFile(cfg, h)), openOk, copy, cfg.keepIncompleteFiles)
  {
    var name := CheckedName(h.fileName, cfg.flattenDirs);
    var file := MakeFile(name);
    assert file == RelativeFile(cfg, h);
    var dest := JoinPath(cfg.outDir, file);
    var d1 := if Parent(dest) != "" then AddDirectory(d, Locate(cwd, Parent(dest))) else d;
    assert d1 == WithParent(cfg, cwd, d, h);
    assert Locate(cwd, dest) == Target(cfg, cwd, h);
    assert Extract(cfg, cwd, d, h, openOk, copy)
        == WriteOutput(d1, h, file, Locate(cwd, dest), Locate(cwd, file), openOk, copy, cfg.keepIncompleteFiles);
  }

  /** A file entry whose checked name contains ILLEGAL_PATH is reported as illegal
      and nothing on the file system changes: no output is opened. */
  lemma ExtractIllegalName(cfg: Config, cwd: string, d: Disk, h: Header, openOk: bool, copy: Copy)
    requires !IsDirectory(h) && Contains(CheckedName(h.fileName, cfg.flattenDirs), ILLEGAL_PATH)
    ensures Extract(cfg, cwd, d, h, openOk, copy) == Step(Returned(false), d, Some(EError(h, IllegalName)))
  {
  }

  /** The output is not opened exactly when the system refuses it or a directory
      occupies the output path. The entry is then reported as such and no file is
      written: only the parent directory may have been created. */
  lemma ExtractOpenFailed(cfg: Config, cwd: string, d: Disk, h: Header, openOk: bool, copy: Copy)
    requires !IsDirectory(h) && !Contains(CheckedName(h.fileName, cfg.flattenDirs), ILLEGAL_PATH)
    ensures var s := Extract(cfg, cwd, d, h, openOk, copy);
      var d1 := WithParent(cfg, cwd, d, h);
      && (s.event == Some(EError(h, OpenFailed)) <==> !openOk || Target(cfg, cwd, h) in d1.dirs)
      && (s.event == Some(EError(h, OpenFailed)) ==> s.disk == d1 && s.disk.files == d.files)
  {
    ExtractFileStages(cfg, cwd, d, h, openOk, copy);
    WriteOutputReasons(WithParent(cfg, cwd, d, h), h, RelativeFile(cfg, h), Target(cfg, cwd, h),
                       Locate(cwd, RelativeFile(cfg, h)), openOk, copy, cfg.keepIncompleteFiles);
  }

  /** A copy that throws after the output was opened is reported as a copy failure;
      the bytes it wrote stay in the output file. */
  lemma ExtractCopyFailed(cfg: Config, cwd: string, d: Disk, h: Header, openOk: bool, copy: Copy)
    requires !IsDirectory(h) && !Contains(CheckedName(h.fileName, cfg.flattenDirs), ILLEGAL_PATH)
    ensures var s := Extract(cfg, cwd, d, h, openOk, copy);
      var d1 := WithParent(cfg, cwd, d, h);
      var target := Target(cfg, cwd, h);
      && (s.event == Some(EError(h, CopyFailed)) <==> openOk && target !in d1.dirs && copy.CopyThrew?)
      && (s.event == Some(EError(h, CopyFailed)) ==> s.disk == WriteFile(d1, target, copy.written))
  {
    ExtractFileStages(cfg, cwd, d, h, openOk, copy);
    WriteOutputReasons(WithParent(cfg, cwd, d, h), h, RelativeFile(cfg, h), Target(cfg, cwd, h),
                       Locate(cwd, RelativeFile(cfg, h)), openOk, copy, cfg.keepIncompleteFiles);
  }

  /** After a complete copy, the entry is reported as not created exactly when the
      relative path, looked up from the working directory, is not a regular file:
      it is neither the output path nor a file that existed before. */
  lemma ExtractCreateFailed(cfg: Config, cwd: string, d: Disk, h: Header, openOk: bool, copy: Copy)
    requires !IsDirectory(h) && !Contains(CheckedName(h.fileName, cfg.flattenDirs), ILLEGAL_PATH)
    ensures var s := Extract(cfg, cwd, d, h, openOk, copy);
      var d1 := WithParent(cfg, cwd, d, h);
      var target := Target(cfg, cwd, h);
      var local := Locate(cwd, RelativeFile(cfg, h));
      && (s.event == Some(EError(h, CreateFailed)) <==>
            openOk && target !in d1.dirs && copy.Copied? && local != target && local !in d.files)
      && (s.event == Some(EError(h, CreateFailed)) ==> s.disk == WriteFile(d1, target, copy.written))
  {
    ExtractFileStages(cfg, cwd, d, h, openOk, copy);
    WriteOutputReasons(WithParent(cfg, cwd, d, h), h, RelativeFile(cfg, h), Target(cfg, cwd, h),
                       Locate(cwd, RelativeFile(cfg, h)), openOk, copy, cfg.keepIncompleteFiles);
  }

  /** A CRC mismatch is reported exactly when the copy completed with a bad CRC and
      the relative path is a regular file; that file is then removed unless
      incomplete files are kept. */
  lemma ExtractCrcMismatch(cfg: Config, cwd: string, d: Disk, h: Header, openOk: bool, copy: Copy)
    requires !IsDirectory(h) && !Contains(CheckedName(h.fileName, cfg.flattenDirs), ILLEGAL_PATH)
    ensures var s := Extract(cfg, cwd, d, h, openOk, copy);
      var d1 := WithParent(cfg, cwd, d, h);
      var target := Target(cfg, cwd, h);
      var local := Locate(cwd, RelativeFile(cfg, h));
      && (s.event == Some(EError(h, CrcMismatch)) <==>
            && openOk && target !in d1.dirs && copy.Copied?
            && (local == target || local in d.files) && !copy.crcValid)
      && (s.event == Some(EError(h, CrcMismatch)) ==>
            s.disk == Cleanup(WriteFile(d1, target, copy.written), local, cfg.keepIncompleteFiles))
  {
    ExtractFileStages(cfg, cwd, d, h, openOk, copy);
    WriteOutputReasons(WithParent(cfg, cwd, d, h), h, RelativeFile(cfg, h), Target(cfg, cwd, h),
                       Locate(cwd, RelativeFile(cfg, h)), openOk, copy, cfg.keepIncompleteFiles);
  }

  /** A size mismatch is reported exactly when the CRC matched, the sizes are in the
      header, and the file at the relative path does not have the header's
      uncompressed size; that file is then removed unless incomplete files are kept. */
  lemma ExtractSizeMismatch(cfg: Config, cwd: string, d: Disk, h: Header, openOk: bool, copy: Copy)
    requires !IsDirectory(h) && !Contains(CheckedName(h.fileName, cfg.flattenDirs), ILLEGAL_PATH)
    ensures var s := Extract(cfg, cwd, d, h, openOk, copy);
      var d1 := WithParent(cfg, cwd, d, h);
      var target := Target(cfg, cwd, h);
      var local := Locate(cwd, RelativeFile(cfg, h));
      && (s.event == Some(EError(h, SizeMismatch)) <==>
            && openOk && target !in d1.dirs && copy.Copied?
            && (local == target || local in d.files) && copy.crcValid
            && (if local == target then copy.written else d.files[local]) != h.uncompressedSize
            && !SearchCRCAndSizesAfterData(h.raw))
      && (s.event == Some(EError(h, SizeMismatch)) ==>
            s.disk == Cleanup(WriteFile(d1, target, copy.written), local, cfg.keepIncompleteFiles))
  {
    ExtractFileStages(cfg, cwd, d, h, openOk, copy);
    WriteOutputReasons(WithParent(cfg, cwd, d, h), h, RelativeFile(cfg, h), Target(cfg, cwd, h),
                       Locate(cwd, RelativeFile(cfg, h)), openOk, copy, cfg.keepIncompleteFiles);
  }

  /** The output steps from their inputs: which error each combination of oracles
      and file system produces, and the file system it leaves. */
  lemma WriteOutputReasons(d: Disk, h: Header, file: string, target: string, local: string,
                           openOk: bool, copy: Copy, keepIncompleteFiles: bool)
    ensures var s := WriteOutput(d, h, file, target, local, openOk, copy, keepIncompleteFiles);
      var isOpen := openOk && target !in d.dirs;
      var present := local == target || local in d.files;
      var size := if local == target then copy.written else if local in d.files then d.files[local] else 0;
      && (s.event == Some(EError(h, OpenFailed)) <==> !isOpen)
      && (s.event == Some(EError(h, OpenFailed)) ==> s.disk == d)
      && (s.event == Some(EError(h, CopyFailed)) <==> isOpen && copy.CopyThrew?)
      && (s.event == Some(EError(h, CreateFailed)) <==> isOpen && copy.Copied? && !present)
      && (isOpen && (copy.CopyThrew? || !present) ==> s.disk == WriteFile(d, target, copy.written))
      && (s.event == Some(EError(h, CrcMismatch)) <==> isOpen && copy.Copied? && present && !copy.crcValid)
      && (s.event == Some(EError(h, SizeMismatch)) <==>
            && isOpen && copy.Copied? && present && copy.crcValid
            && size != h.uncompressedSize && !SearchCRCAndSizesAfterData(h.raw))
      && (s.event == Some(EError(h, CrcMismatch)) || s.event == Some(EError(h, SizeMismatch)) ==>
            s.disk == Cleanup(WriteFile(d, target, copy.written), local, keepIncompleteFiles))
  {
    if openOk && target !in d.dirs {
      var written := WriteFile(d, target, copy.written);
      assert local in written.files <==> local == target || local in d.files;
      assert local in written.files ==>
        written.files[local] == if local == target then copy.written else d.files[local];
    }
  }

  /** A file entry is extracted exactly when its checked name is legal, the output
      opens, the copy completes with a valid CRC, the relative path names a regular
      file afterwards, and that file's size is the header's uncompressed size or
      the sizes are deferred. It is then reported under its relative path. */
  lemma ExtractSucceeds(cfg: Config, cwd: string, d: Disk, h: Header, openOk: bool, copy: Copy)
    requires !IsDirectory(h)
    ensures var s := Extract(cfg, cwd, d, h, openOk, copy);
      var d1 := WithParent(cfg, cwd, d, h);
      var target := Target(cfg, cwd, h);
      var local := Locate(cwd, RelativeFile(cfg, h));
      && (s.outcome == Returned(true) <==>
            && !Contains(CheckedName(h.fileName, cfg.flattenDirs), ILLEGAL_PATH)
            && openOk && target !in d1.dirs && copy.Copied? && copy.crcValid
            && (local == target || local in d.files)
            && ((if local == target then copy.written else d.files[local]) == h.uncompressedSize
                || SearchCRCAndSizesAfterData(h.raw)))
      && (s.outcome == Returned(true) ==>
            s.event == Some(EOk(h, RelativeFile(cfg, h))) && target in s.disk.files
            && s.disk.files[target] == copy.written)
      // Nothing else changes: the disk is the one with the parent directory,
      // with the output written.
      && (s.outcome == Returned(true) ==> target !in d1.dirs && s.disk == WriteFile(d1, target, copy.written))
  {
    if !Contains(CheckedName(h.fileName, cfg.flattenDirs), ILLEGAL_PATH) {
      ExtractFileStages(cfg, cwd, d, h, openOk, copy);
      WriteOutputSucceeds(WithParent(cfg, cwd, d, h), h, RelativeFile(cfg, h), Target(cfg, cwd, h),
                          Locate(cwd, RelativeFile(cfg, h)), openOk, copy, cfg.keepIncompleteFiles);
    }
  }

  /** The conditions under which the output steps extract an entry. */
  lemma WriteOutputSucceeds(d: Disk, h: Header, file: string, target: string, local: string,
                            openOk: bool, copy: Copy, keepIncompleteFiles: bool)
    ensures var s := WriteOutput(d, h, file, target, local, openOk, copy, keepIncompleteFiles);
      && (s.outcome == Returned(true) <==>
            && openOk && target !in d.dirs && copy.Copied? && copy.crcValid
            && (local == target || local in d.files)
            && ((if local == target then copy.written else d.files[local]) == h.uncompressedSize
                || SearchCRCAndSizesAfterData(h.raw)))
      && (s.outcome == Returned(true) ==>
            s.event == Some(EOk(h, file)) && target in s.disk.files && s.disk.files[target] == copy.written)
      && (s.outcome == Returned(true) ==> target !in d.dirs && s.disk == WriteFile(d, target, copy.written))
  {
    if openOk && target !in d.dirs && copy.Copied? {
      var written := WriteFile(d, target, copy.written);
      assert local in written.files <==> local == target || local in d.files;
      assert local in written.files ==>
        written.files[local] == if local == target then copy.written else d.files[local];
    }
  }

  /** After a CRC or size mismatch the incomplete file at the relative path is gone
      exactly when incomplete files are not kept. */
  lemma ExtractMismatchCleanup(cfg: Config, cwd: string, d: Disk, h: Header, openOk: bool, copy: Copy)
    requires var s := Extract(cfg, cwd, d, h, openOk, copy);
      s.event == Some(EError(h, CrcMismatch)) || s.event == Some(EError(h, SizeMismatch))
    ensures var s := Extract(cfg, cwd, d, h, openOk, copy);
      Locate(cwd, RelativeFile(cfg, h)) in s.disk.files <==> cfg.keepIncompleteFiles
  {
    if !IsDirectory(h) && !Contains(CheckedName(h.fileName, cfg.flattenDirs), ILLEGAL_PATH) {
      ExtractFileStages(cfg, cwd, d, h, openOk, copy);
      WriteOutputCleanup(WithParent(cfg, cwd, d, h), h, RelativeFile(cfg, h), Target(cfg, cwd, h),
                         Locate(cwd, RelativeFile(cfg, h)), openOk, copy, cfg.keepIncompleteFiles);
    }
  }

  /** A CRC or size mismatch is found only after the output was opened and written
      and `local` was seen as a regular file; the cleanup then removes it unless
      incomplete files are kept. */
  lemma WriteOutputCleanup(d: Disk, h: Header, file: string, target: string, local: string,
                           openOk: bool, copy: Copy, keepIncompleteFiles: bool)
    requires var s := WriteOutput(d, h, file, target, local, openOk, copy, keepIncompleteFiles);
      s.event == Some(EError(h, CrcMismatch)) || s.event == Some(EError(h, SizeMismatch))
    ensures var s := WriteOutput(d, h, file, target, local, openOk, copy, keepIncompleteFiles);
      local in s.disk.files <==> keepIncompleteFiles
  {
    assert openOk && target !in d.dirs && copy.Copied?;
    assert local in WriteFile(d, target, copy.written).files;
  }

  /** The size check is skipped when CRC and sizes follow the data. */
  lemma ExtractDeferredSize(cfg: Config, cwd: string, d: Disk, h: Header, openOk: bool, copy: Copy)
    requires SearchCRCAndSizesAfterData(h.raw)
    ensures Extract(cfg, cwd, d, h, openOk, copy).event != Some(EError(h, SizeMismatch))
  {
    if !IsDirectory(h) && !Contains(CheckedName(h.fileName, cfg.flattenDirs), ILLEGAL_PATH) {
      ExtractFileStages(cfg, cwd, d, h, openOk, copy);
      var s := WriteOutput(WithParent(cfg, cwd, d, h), h, RelativeFile(cfg, h), Target(cfg, cwd, h),
                           Locate(cwd, RelativeFile(cfg, h)), openOk, copy, cfg.keepIncompleteFiles);
      if s.event == Some(EError(h, SizeMismatch)) {
        WriteOutputDeferredSize(WithParent(cfg, cwd, d, h), h, RelativeFile(cfg, h), Target(cfg, cwd, h),
                                Locate(cwd, RelativeFile(cfg, h)), openOk, copy, cfg.keepIncompleteFiles);
      }
    }
  }

  /** The size mismatch is reported only when the sizes are in the header. */
  lemma WriteOutputDeferredSize(d: Disk, h: Header, file: string, target: string, local: string,
                                openOk: bool, copy: Copy, keepIncompleteFiles: bool)
    requires WriteOutput(d, h, file, target, local, openOk, copy, keepIncompleteFiles).event
      == Some(EError(h, SizeMismatch))
    ensures !SearchCRCAndSizesAfterData(h.raw)
  {
  }

  /** Because the existence check looks the relative path up from the working
      directory and not in the output directory, an output that was written is
      still reported as not created when nothing exists at the relative path. */
  lemma ExtractChecksRelativePath(cfg: Config, cwd: string, d: Disk, h: Header, openOk: bool, copy: Copy)
    requires !IsDirectory(h) && !Contains(CheckedName(h.fileName, cfg.flattenDirs), ILLEGAL_PATH)
    requires openOk && Target(cfg, cwd, h) !in WithParent(cfg, cwd, d, h).dirs && copy.Copied?
    requires Locate(cwd, RelativeFile(cfg, h)) != Target(cfg, cwd, h)
    requires Locate(cwd, RelativeFile(cfg, h)) !in d.files
    ensures var s := Extract(cfg, cwd, d, h, openOk, copy);
      && s.event == Some(EError(h, CreateFailed))
      && Target(cfg, cwd, h) in s.disk.files && s.disk.files[Target(cfg, cwd, h)] == copy.written
  {
    ExtractFileStages(cfg, cwd, d, h, openOk, copy);
  }

  /** A directory entry outside flatten mode with a legal name creates the directory
      its own name denotes, looked up from the working directory and not placed
      under the output directory. */
  lemma ExtractDirectoryCreated(cfg: Config, cwd: string, d: Disk, h: Header, openOk: bool, copy: Copy)
    requires IsDirectory(h) && !cfg.flattenDirs && !Contains(h.fileName, ILLEGAL_PATH)
    requires Locate(cwd, h.fileName) !in d.files
    ensures Locate(cwd, h.fileName) in Extract(cfg, cwd, d, h, openOk, copy).disk.dirs
    ensures Extract(cfg, cwd, d, h, openOk, copy).disk == AddDirectory(d, Locate(cwd, h.fileName))
  {
  }

  // ---------------------------------------------------------------------------
  // The mapping from entry names to extracted paths

  /** std::map::insert: an existing key keeps its value. */
  function Insert(m: map<string, string>, k: string, v: string): map<string, string>
  {
    if k in m then m else m[k := v]
  }

  /** `e` reports the successful extraction of an entry named `name`. */
  predicate IsOkFor(e: Event, name: string)
  {
    e.EOk? && e.header.fileName == name
  }

  /** The mapping onOk builds from a sequence of notifications. */
  function MappingOf(events: seq<Event>): map<string, string>
  {
    if |events| == 0 then map[]
    else
      var m := MappingOf(events[..|events| - 1]);
      match events[|events| - 1]
      case EOk(h, p) => Insert(m, h.fileName, p)
      case EError(_, _) => m
  }

  /** One more notification: an error leaves the mapping as it is, and a success
      adds its name unless the name is already mapped. */
  lemma MappingOfAppend(events: seq<Event>, e: Event)
    ensures MappingOf(events + [e]) ==
      if e.EOk? then Insert(MappingOf(events), e.header.fileName, e.path) else MappingOf(events)
  {
    assert (events + [e])[..|events|] == events;
  }

  /** The mapping holds exactly the names of the successful extractions. */
  lemma {:induction false} MappingKeys(events: seq<Event>, name: string)
    ensures name in MappingOf(events) <==> exists i :: 0 <= i < |events| && IsOkFor(events[i], name)
    decreases |events|
  {
    if |events| > 0 {
      var init := events[..|events| - 1];
      MappingKeys(init, name);
      if exists i :: 0 <= i < |init| && IsOkFor(init[i], name) {
        var i :| 0 <= i < |init| && IsOkFor(init[i], name);
        assert IsOkFor(events[i], name);
      }
      if exists i :: 0 <= i < |events| && IsOkFor(events[i], name) {
        var i :| 0 <= i < |events| && IsOkFor(events[i], name);
        if i < |init| {
          assert IsOkFor(init[i], name);
        }
      }
    }
  }

  /** A name is mapped to the path of its first successful extraction: later
      successes under the same name do not overwrite it. */
  lemma {:induction false} MappingFirst(events: seq<Event>, i: nat)
    requires i < |events| && events[i].EOk?
    requires forall j :: 0 <= j < i ==> !IsOkFor(events[j], events[i].header.fileName)
    ensures events[i].header.fileName in MappingOf(events)
    ensures MappingOf(events)[events[i].header.fileName] == events[i].path
    decreases |events|
  {
    var name := events[i].header.fileName;
    var init := events[..|events| - 1];
    if i == |events| - 1 {
      MappingKeys(init, name);
      assert forall j :: 0 <= j < |init| ==> init[j] == events[j];
    } else {
      MappingFirst(init, i);
    }
  }

  /** A later notification never removes or changes a mapped name. */
  lemma MappingGrows(events: seq<Event>, e: Event)
    ensures forall k :: k in MappingOf(events) ==>
      k in MappingOf(events + [e]) && MappingOf(events + [e])[k] == MappingOf(events)[k]
  {
    MappingOfAppend(events, e);
  }

  // ---------------------------------------------------------------------------
  // A run over the entries of an archive

  /** The inputs of one handleZipEntry call: the header and the two oracles. */
  datatype Entry = Entry(header: Header, openOk: bool, copy: Copy)

  /** The number of file (not directory) entries among `entries`. */
  function FileEntryCount(entries: seq<Entry>): nat
  {
    if |entries| == 0 then 0
    else
      FileEntryCount(entries[..|entries| - 1])
        + (if IsDirectory(entries[|entries| - 1].header) then 0 else 1)
  }

  /** The entries whose handling throws: directories with an illegal name outside
      flatten mode. */
  predicate ThrowsOn(cfg: Config, e: Entry)
  {
    IsDirectory(e.header) && !cfg.flattenDirs && Contains(e.header.fileName, ILLEGAL_PATH)
  }

  /** No entry of `entries` throws. */
  predicate NoneThrows(cfg: Config, entries: seq<Entry>)
  {
    |entries| == 0 ||
    (NoneThrows(cfg, entries[..|entries| - 1]) && !ThrowsOn(cfg, entries[|entries| - 1]))
  }

  // ---------------------------------------------------------------------------
  // The Decompress object

  datatype OpenError = NotADirectory(path: string)

  class Decompress {
    const outDir: string
    const flattenDirs: bool
    const keepIncompleteFiles: bool
    var mapping: map<string, string>
    /** The notifications so far, in order (the EOk and EError events). */
    var events: seq<Event>

    /** The mapping is what onOk made of the EOk notifications. */
    ghost predicate Valid()
      reads this
    {
      mapping == MappingOf(events)
    }

    function Settings(): Config
    {
      Config(outDir, flattenDirs, keepIncompleteFiles)
    }

    constructor (dir: string, flatten: bool, keep: bool)
      ensures outDir == dir && flattenDirs == flatten && keepIncompleteFiles == keep
      ensures mapping == map[] && events == [] && Valid()
    {
      outDir := dir;
      flattenDirs := flatten;
      keepIncompleteFiles := keep;
      mapping := map[];
      events := [];
    }

    /** onOk: the entry's name is mapped to its path unless already mapped. */
    method OnOk(hdr: Header, path: string)
      modifies this`mapping
      ensures mapping == Insert(old(mapping), hdr.fileName, path)
    {
      if hdr.fileName !in mapping {
        mapping := mapping[hdr.fileName := path];
      }
    }

    /** EOk.notify, with onOk subscribed. */
    method NotifyOk(hdr: Header, path: string)
      requires Valid()
      modifies this`mapping, this`events
      ensures Valid() && events == old(events) + [EOk(hdr, path)]
    {
      MappingOfAppend(events, EOk(hdr, path));
      events := events + [EOk(hdr, path)];
      OnOk(hdr, path);
    }

    /** EError.notify. */
    method NotifyError(hdr: Header, reason: Reason)
      requires Valid()
      modifies this`events
      ensures Valid() && events == old(events) + [EError(hdr, reason)]
    {
      MappingOfAppend(events, EError(hdr, reason));
      events := events + [EError(hdr, reason)];
    }

    /** handleZipEntry, proved against Extract. */
    method HandleZipEntry(fs: FileSystem, hdr: Header, openOk: bool, copy: Copy) returns (r: Outcome)
      requires Valid()
      modifies this`mapping, this`events, fs
      ensures Valid()
      ensures var s := Extract(Settings(), fs.cwd, old(fs.State()), hdr, openOk, copy);
        r == s.outcome && fs.State() == s.disk && events == old(events) + Logged(s.event)
    {
      if IsDirectory(hdr) {
        if !flattenDirs {
          var dirName := hdr.fileName;
          if Contains(dirName, ILLEGAL_PATH) {
            return ThrewIllegalName;
          }
          fs.CreateDirectories(MakeDirectory(dirName));
        }
        return Returned(true);
      }
      var fileName: string := hdr.fileName;
      if flattenDirs {
        fileName := LastSegment(MakeFile(fileName));
      }
      if Contains(fileName, ILLEGAL_PATH) {
        NotifyError(hdr, IllegalName);
        return Returned(false);
      }
      var file := MakeFile(fileName);
      var dest := JoinPath(outDir, file);
      if Parent(dest) != "" {
        fs.CreateDirectories(Parent(dest));
      }
      r := WriteEntry(fs, hdr, file, dest, openOk, copy);
    }

    /** The part of handleZipEntry from opening the output on, proved against
        WriteOutput: open and copy into `dest`, then check the file at `file`. */
    method WriteEntry(fs: FileSystem, hdr: Header, file: string, dest: string, openOk: bool, copy: Copy)
      returns (r: Outcome)
      requires Valid()
      modifies this`mapping, this`events, fs
      ensures Valid()
      ensures var s := WriteOutput(old(fs.State()), hdr, file, Locate(fs.cwd, dest), Locate(fs.cwd, file),
                                   openOk, copy, keepIncompleteFiles);
        r == s.outcome && fs.State() == s.disk && events == old(events) + Logged(s.event)
    {
      var isOpen := fs.Open(dest, openOk);
      if !isOpen {
        NotifyError(hdr, OpenFailed);
        return Returned(false);
      }
      WriteFileTwice(old(fs.State()), Locate(fs.cwd, dest), 0, copy.written);
      fs.Write(dest, copy.written);
      if copy.CopyThrew? {
        NotifyError(hdr, CopyFailed);
        return Returned(false);
      }
      var present := fs.Exists(file);
      var isFile := fs.IsFile(file);
      if !present || !isFile {
        NotifyError(hdr, CreateFailed);
        return Returned(false);
      }
      if !copy.crcValid {
        if !keepIncompleteFiles {
          fs.Remove(file);
        }
        NotifyError(hdr, CrcMismatch);
        return Returned(false);
      }
      var size := fs.GetSize(file);
      if size != hdr.uncompressedSize && !SearchCRCAndSizesAfterData(hdr.raw) {
        if !keepIncompleteFiles {
          fs.Remove(file);
        }
        NotifyError(hdr, SizeMismatch);
        return Returned(false);
      }
      NotifyOk(hdr, file);
      return Returned(true);
    }

    /** The walker's call of handleZipEntry for one entry: it throws exactly on
        ThrowsOn, a file entry notifies one event and a directory none, and the file
        system and the event are Extract's. */
    method HandleEntry(fs: FileSystem, e: Entry) returns (thrown: bool)
      requires Valid()
      modifies this`mapping, this`events, fs
      ensures Valid() && (thrown <==> ThrowsOn(Settings(), e))
      ensures |events| == |old(events)| + (if IsDirectory(e.header) then 0 else 1)
      ensures var s := Extract(Settings(), fs.cwd, old(fs.State()), e.header, e.openOk, e.copy);
        fs.State() == s.disk && events == old(events) + Logged(s.event)
    {
      var r := HandleZipEntry(fs, e.header, e.openOk, e.copy);
      thrown := r == ThrewIllegalName;
    }

    /** One step of the walk as the loop below sees it: HandleEntry, with only what
        the loop's invariants need of it. */
    method WalkStep(fs: FileSystem, e: Entry) returns (thrown: bool)
      requires Valid()
      modifies this`mapping, this`events, fs
      ensures Valid() && (thrown <==> ThrowsOn(Settings(), e))
      ensures |events| == |old(events)| + (if IsDirectory(e.header) then 0 else 1)
    {
      thrown := HandleEntry(fs, e);
    }

    /** decompressAllFiles: a Decompress object extracts once, so the mapping must
        still be empty; the archive walker then hands it the entries in order, and
        an exception from an entry ends the walk. Every file entry handled notifies
        exactly one event, and the mapping holds what those events report. */
    method DecompressAllFiles(fs: FileSystem, entries: seq<Entry>) returns (handled: nat)
      requires Valid() && mapping == map[]
      modifies this`mapping, this`events, fs
      ensures Valid() && handled <= |entries|
      ensures |events| == |old(events)| + FileEntryCount(entries[..handled])
      ensures NoneThrows(Settings(), entries[..handled])
      ensures handled < |entries| ==> ThrowsOn(Settings(), entries[handled])
    {
      handled := 0;
      while handled < |entries|
        invariant handled <= |entries| && Valid()
        invariant |events| == |old(events)| + FileEntryCount(entries[..handled])
        invariant NoneThrows(Settings(), entries[..handled])
      {
        var e := entries[handled];
        var thrown := WalkStep(fs, e);
        if thrown {
          return;
        }
        assert entries[..handled + 1][..handled] == entries[..handled];
        handled := handled + 1;
      }
    }
  }

  /** The constructor's output directory check: the directory, made absolute from
      the working directory, is created when nothing exists there; the object is
      built only if a directory is then found there. */
  method Open(fs: FileSystem, outputDir: string, flattenDirs: bool, keepIncompleteFiles: bool)
    returns (r: Result<Decompress, OpenError>)
    modifies fs
    ensures var dir := Locate(fs.cwd, ResolvePath(fs.cwd, outputDir));
      && fs.State() == AddDirectory(old(fs.State()), dir)
      && (r.Ok? <==> dir !in old(fs.files) || dir in old(fs.dirs))
    ensures r.Err? ==> r.error == NotADirectory(ResolvePath(fs.cwd, outputDir))
    ensures r.Ok? ==>
      && fresh(r.value) && r.value.outDir == ResolvePath(fs.cwd, outputDir)
      && r.value.flattenDirs == flattenDirs && r.value.keepIncompleteFiles == keepIncompleteFiles
      && r.value.mapping == map[] && r.value.events == [] && r.value.Valid()
  {
    var dir := ResolvePath(fs.cwd, outputDir);
    var present := fs.Exists(dir);
    if !present {
      fs.CreateDirectories(dir);
    }
    var isDirectory := fs.IsDirectory(dir);
    if !isDirectory {
      return Err(NotADirectory(dir));
    }
    var d := new Decompress(dir, flattenDirs, keepIncompleteFiles);
    return Ok(d);
  }
}
