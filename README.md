# Poco Zip: local file headers and extraction, in Dafny

This project models two parts of the Poco Zip reader and proves properties of the models.

**The local file header** (`Poco::Zip::ZipLocalFileHeader`) is the record that
precedes each entry's data in an archive. It consists of:
- a 30-byte fixed block, laid out as section 4.3.7 of PKWARE's APPNOTE.TXT lays it out;
- the entry's file name;
- an optional extra field.

Bit 3 of the general purpose flags matters only for the deflate method. When it
is set, the CRC and sizes are deferred: they follow the payload in a data
descriptor (section 4.3.9) instead of sitting in the fixed block.

The header is modelled twice:
- As a value. `HeaderFormat` holds the `Header` datatype, decoding (`ParseHeader`), encoding
  (`CreateHeader`) and the write-side normaliser (`WithFileName`, `InitHeader`, `NewHeader`).
- As an object. `LocalFileHeader.ZipLocalFileHeader` keeps its fixed block in a 30-byte array
  that its setters write in place. It reads from an `InputStream`, which is a byte sequence
  with a cursor. Each of its methods is proved against the value-level definition.

Two constructors are modelled:
- The reading constructor `ReadLocalFileHeader` parses the header, takes the entry handler's
  answer, and takes the descriptor's values when the sizes are deferred. It then sets the
  entry's end offset.
- The writing constructor `ForEntry` builds a blank block and runs `init`.

**Extraction** (`Poco::Zip::Decompress`) covers:
- the output directory check of the constructor (`Open`);
- the precondition of `decompressAllFiles`;
- the per-entry decision of `handleZipEntry`, with its events and file removals;
- the name-to-path mapping that `onOk` fills in.

The effect of one entry is defined as a value, `Extract`, over a model of the file system.
`Files.Disk` holds regular files with their sizes and a set of directories, named by
absolute paths. The `Decompress` class is proved against `Extract`. The outcomes of
opening the output file and of copying the payload are inputs:
- `openOk` says whether the output file can be created;
- `Copy` gives the bytes written, whether the CRC matched, or that the copy threw.

The model follows the code in two places where a plain reading of the library's documentation would
differ:
- A directory entry is created under its own name, looked up from the process's working
  directory. It is not placed under the output directory (`Decompress.cpp:98-101`).
- After the output is written to `dest` (the output directory joined with the entry's
  relative path), three things use the relative path `file` rather than `dest`
  (`Decompress.cpp:138-166`):
  - the existence check, the regular-file check and the size check;
  - the removal of an incomplete file;
  - the path reported on success.

  `ExtractChecksRelativePath` shows the consequence: an output that was written is reported
  as not created when nothing exists at the relative path.
- `dest` is built as `Poco::Path(_outDir, file)` (`Decompress.cpp:121`), which replaces the
  last segment of `_outDir` with `file`. An output directory given with a trailing '/'
  keeps all of its segments. One given without, such as "out", is made absolute as
  "/cwd/out" and created as a directory (`Decompress.cpp:60-68`). The entries are then
  written next to it, to "/cwd/<file>", and not into it (`Paths.JoinPath`).

Modules: `Wrappers` (Option, Result), `ZipUtil` (byte types, little-endian fields,
byte/character strings), `ZipCommon` (constants), `Streams`, `HeaderFormat`,
`LocalFileHeader`, `Paths` ('/'-separated names), `Files` (the file system) and
`Decompression`.

## Model

| member | source | states |
|---|---|---|
| HeaderFormat.SearchCRCAndSizesAfterData | Zip/src/ZipLocalFileHeader.cpp:169-177 | CRC and sizes are deferred only for deflate; for deflate, exactly when bit 3 of the flags is set. Other methods ignore the bit. |
| HeaderFormat.EntryFromBlock | Zip/src/ZipLocalFileHeader.cpp:149-165 | The decoded entry is consistent with its fixed block. Its name and extra field are the bytes read. Its CRC and sizes come from the block unless deferred, in which case they are 0. |
| HeaderFormat.ParseHeader | Zip/src/ZipLocalFileHeader.cpp:132-166 | Decoding succeeds exactly when the bytes are Decodable: enough bytes, the signature, a host system below HS_UNUSED, major version at most 2, a method below CM_UNUSED, and room for the name and extra field. The result is a consistent header whose fixed block is the one at the start position. |
| HeaderFormat.ParseNameAndExtra | Zip/src/ZipLocalFileHeader.cpp:149-165 | After a checked fixed block, reading the name and extra field fails, as Truncated, only when the stream is shorter than the two lengths. |
| HeaderFormat.ParseHeaderChecks | Zip/src/ZipLocalFileHeader.cpp:143-147 | Once the signature and the 26-byte fixed block are in hand, decoding rejects, in this order, a host system outside HS_FAT..HS_UNUSED, a major version above 2, and a method at or above CM_UNUSED. Only a block that passes all three goes on to the name and extra field. |
| HeaderFormat.ParseHeaderStages | Zip/src/ZipLocalFileHeader.cpp:134-147 | Once a signature and a valid fixed block have been read, decoding is decided by the name and extra field alone. |
| HeaderFormat.ParseNameAndExtraCases | Zip/src/ZipLocalFileHeader.cpp:149-159 | The name is the name-length bytes after the fixed block. The extra field is the extra-length bytes after the name. The stream position ends just past them, or the read is Truncated. |
| HeaderFormat.ParseHeaderLayout | Zip/src/ZipLocalFileHeader.cpp:134-165 | A successful decode had a signature (unless already consumed) and a checked fixed block. Its name and extra field are the bytes that follow, in that order, and the decode ends after them. |
| HeaderFormat.ParseHeaderSize | Zip/src/ZipLocalFileHeader.cpp:132-166 | Decoding consumes exactly the header size (30 + name length + extra length) from the header's start. When the caller already read the signature, that is 4 bytes fewer. |
| HeaderFormat.ParseHeaderRejects | Zip/src/ZipLocalFileHeader.cpp:142-147 | Each decoding error names the check that failed: a wrong signature, a host byte at or above HS_UNUSED, a major version above 2, or a method at or above CM_UNUSED. |
| HeaderFormat.Resolve | Zip/src/ZipLocalFileHeader.cpp:106-122 | Sizes in the header: the header is unchanged. Deferred and accepted: CRC and sizes become the descriptor's, in the object and in the fixed block, and nothing else changes. Deferred and declined: rejected. |
| HeaderFormat.EndPos | Zip/src/ZipLocalFileHeader.cpp:123 | The end offset of a consistent header is its start, plus the bytes its header is written as, plus the compressed size; the data descriptor is not counted. It is at least 30 past the start. |
| HeaderFormat.CreateHeader | Zip/src/ZipLocalFileHeader.cpp:229-235 | The encoding is the 30-byte block, then the name, then the extra field. Its length is 30 + name + extra. |
| HeaderFormat.ParseCreateHeader | Zip/src/ZipLocalFileHeader.cpp:229-235 | Decoding the encoding of any consistent header, whatever follows it, gives that header back and stops right after it. |
| HeaderFormat.CreateParsedHeader | Zip/src/ZipLocalFileHeader.cpp:229-235 | Encoding a decoded header reproduces the bytes it was decoded from. When the caller had consumed the signature, the signature is put back in front. |
| HeaderFormat.ParseLaidOut | Zip/src/ZipLocalFileHeader.cpp:132-166 | Bytes that begin with a consistent header's block, name and extra field decode to that header. |
| HeaderFormat.MakeDirectory | Zip/src/ZipLocalFileHeader.cpp:187 | A directory name ends in '/': one is appended unless already there. |
| HeaderFormat.MakeFile | Zip/src/ZipLocalFileHeader.cpp:196 | A file name loses one trailing '/' if it has one, and only then. |
| HeaderFormat.NormalizedName | Zip/src/ZipLocalFileHeader.cpp:183-200 | The stored name is the directory or file form of the name with one leading '/' removed, exactly when the name has one. A non-empty stored directory name ends in '/'. |
| HeaderFormat.SetCompressionLevelBits | Zip/src/ZipLocalFileHeader.cpp:192 | The level is written into bits 1 and 2 of the flags and reads back. Bit 0, bits 3 to 7 and every other byte are kept. |
| HeaderFormat.ClearDeferredBit | Zip/src/ZipLocalFileHeader.cpp:214 | Bit 3 is cleared, so nothing is deferred. Bits 0-2 and 4-7 of the flags byte and every other byte are kept. |
| HeaderFormat.ClearEncryptionBit | Zip/src/ZipLocalFileHeader.cpp:81 | Bit 0 (encryption) is cleared. Bits 1-7 of the flags byte and every other byte are kept. |
| HeaderFormat.ZeroedForDirectory | Zip/src/ZipLocalFileHeader.cpp:185-193 | For a directory: CRC and both sizes are 0 in the object and in the block, with method store and level normal. The name, the extra field, bit 0 and bits 3-7 of the low flags byte, the high flags byte and every byte outside the method, CRC and sizes are kept. |
| HeaderFormat.WithFileName | Zip/src/ZipLocalFileHeader.cpp:180-206 | The stored name is the normalised name. The length field holds its size truncated to 16 bits. A directory is zeroed (method store, level normal), keeping bit 0, bits 3-7 and the high byte of the flags, and is a directory entry whenever its stored name is non-empty (the name "/" is stored as ""). For a file, the sizes and the block before the length field are unchanged. The bytes before the flags, the time and date, and the extra length are kept in both cases. |
| HeaderFormat.InitHeader | Zip/src/ZipLocalFileHeader.cpp:209-226 | init stores the normalised name, with its length, and leaves the sizes not deferred. It sets version 2.0. A file gets the given method; a directory path gets method store. InitHeaderFlags states the flag bits, the level among them. |
| HeaderFormat.InitHeaderFlags | Zip/src/ZipLocalFileHeader.cpp:209-226 | After init, bit 3 of the flags is clear whatever the method, and encryption (bit 0), bits 4-7 and the high flags byte are those before init. A file path gets the given level, a directory path level normal. |
| HeaderFormat.InitHeaderDirectory | Zip/src/ZipLocalFileHeader.cpp:209-226 | init on a directory path zeroes CRC and sizes in the object and the block. The result is a directory entry unless the stored name is empty. |
| HeaderFormat.InitHeaderKeeps | Zip/src/ZipLocalFileHeader.cpp:209-226 | init keeps the extra field, the signature, the host system, the time and date, and the extra length. |
| HeaderFormat.InitHeaderKeepsSizes | Zip/src/ZipLocalFileHeader.cpp:209-226 | init on a file path keeps the CRC and sizes in the object and the block. |
| HeaderFormat.SelectMethod | Zip/src/ZipLocalFileHeader.cpp:219-225 | A file gets the given method and level, keeping bit 0 and bits 3-7 of the flags. Otherwise the method is store and the flags are untouched. Every other byte is kept. |
| HeaderFormat.BlankHeader | Zip/src/ZipLocalFileHeader.cpp:66-83 | The writing constructor's starting block: the signature, then the host system and the DOS time and date. The version byte, the flags (so encryption is off), the method, CRC, sizes, name length and extra length are all 0. Name and extra field are empty, and CRC and sizes are 0 in the object. |
| HeaderFormat.NewHeader | Zip/src/ZipLocalFileHeader.cpp:53-85 | The written header stores the normalised path and no extra field. It is consistent, and so round-trips through ParseCreateHeader, whenever the method and host are recognised and the name fits the 16-bit length. |
| HeaderFormat.NewHeaderFlags | Zip/src/ZipLocalFileHeader.cpp:53-85 | The writing constructor's header has encryption off (bit 0 clear) and its sizes not deferred (bit 3 clear). |
| LocalFileHeader.ZipLocalFileHeader.ForEntry | Zip/src/ZipLocalFileHeader.cpp:53-85 | The writing constructor's object holds NewHeader of its arguments, with start and end offsets -1. |
| LocalFileHeader.ZipLocalFileHeader.WriteBlank | Zip/src/ZipLocalFileHeader.cpp:67-83 | Writing the host, encryption, extra size and time into the zeroed array gives BlankHeader. |
| LocalFileHeader.ZipLocalFileHeader.Reading | Zip/src/ZipLocalFileHeader.cpp:88-98 | The reading constructor's object starts with the given start offset, end offset -1, an empty name and extra field, and CRC and sizes 0. |
| LocalFileHeader.ZipLocalFileHeader.SetCRC | Zip/src/ZipLocalFileHeader.cpp:188 | The CRC is set in the object and at offset 14 of the block. Nothing else changes. |
| LocalFileHeader.ZipLocalFileHeader.SetCompressedSize | Zip/src/ZipLocalFileHeader.cpp:189 | The compressed size is set in the object and at offset 18. Nothing else changes. |
| LocalFileHeader.ZipLocalFileHeader.SetUncompressedSize | Zip/src/ZipLocalFileHeader.cpp:190 | The uncompressed size is set in the object and at offset 22. Nothing else changes. |
| LocalFileHeader.ZipLocalFileHeader.SetCompressionLevel | Zip/src/ZipLocalFileHeader.cpp:192 | The array becomes SetCompressionLevelBits of its old contents. |
| LocalFileHeader.ZipLocalFileHeader.SetCompressionMethod | Zip/src/ZipLocalFileHeader.cpp:191 | The method field (bytes 8-9) holds the given method, little-endian, and the rest of the block is unchanged. |
| LocalFileHeader.ZipLocalFileHeader.ClearSearchCRCAndSizesAfterData | Zip/src/ZipLocalFileHeader.cpp:214 | The block becomes ClearDeferredBit of the old one: bit 3 of the flags cleared, every other bit and byte kept. |
| LocalFileHeader.ZipLocalFileHeader.ClearEncryption | Zip/src/ZipLocalFileHeader.cpp:81 | The block becomes ClearEncryptionBit of the old one: bit 0 of the flags cleared, every other bit and byte kept. |
| LocalFileHeader.ZipLocalFileHeader.SetFileName | Zip/src/ZipLocalFileHeader.cpp:180-206 | A non-empty name is required. The object's header becomes WithFileName of the old one, and the offsets are unchanged. |
| LocalFileHeader.ZipLocalFileHeader.Init | Zip/src/ZipLocalFileHeader.cpp:209-226 | An empty stored name is required. The object's header becomes InitHeader of the old one. |
| LocalFileHeader.ZipLocalFileHeader.Parse | Zip/src/ZipLocalFileHeader.cpp:132-166 | Reading from the stream fails exactly when ParseHeader fails, with the same error. Otherwise the object holds ParseHeader's header and the cursor is just past it. |
| LocalFileHeader.ZipLocalFileHeader.ReadFixedBlock | Zip/src/ZipLocalFileHeader.cpp:134-147 | On success the array holds the signature (read, or written in when already consumed) and the next 26 bytes, which pass the checks. On failure the error is ParseHeader's. |
| LocalFileHeader.ZipLocalFileHeader.ReadNameAndExtra | Zip/src/ZipLocalFileHeader.cpp:149-165 | Reads the name, and the extra field only when its length is non-zero. Takes CRC and sizes from the block unless deferred, all as ParseNameAndExtra says. |
| LocalFileHeader.ZipLocalFileHeader.Complete | Zip/src/ZipLocalFileHeader.cpp:108-123 | After the handler answers, the object becomes Resolve of its header. The end offset is start + header size + compressed size, excluding the payload's descriptor. |
| LocalFileHeader.ZipLocalFileHeader.CreateHeader | Zip/src/ZipLocalFileHeader.cpp:229-235 | Returns the value-level encoding of the object's header. |
| LocalFileHeader.ReadNameAndExtraBytes | Zip/src/ZipLocalFileHeader.cpp:149-159 | Returns the name bytes and extra bytes at the cursor and moves past them, or nothing when the stream ends first. |
| LocalFileHeader.ReadLocalFileHeader | Zip/src/ZipLocalFileHeader.cpp:88-124 | The reading constructor: a decoding error or a declined deferred entry is an error. Otherwise it builds a fresh object holding Resolve of the decoded header, with start offset cursor (minus 4 when the signature was consumed) and end offset start + header + compressed size. |
| Paths.ContainsOccurs | Zip/src/Decompress.cpp:116 | The substring scan finds ILLEGAL_PATH exactly when it occurs at some index of the name. |
| Paths.LastSegment | Zip/src/Decompress.cpp:111-113 | The flattened name is the suffix after the last '/': it contains no '/', and it is preceded by '/' whenever it is shorter than the name. |
| Paths.Parent | Zip/src/Decompress.cpp:123-125 | A path with a '/' is its parent, then '/', then its last segment. A path without one has no parent (depth 0). |
| Paths.ResolvePath | Zip/src/Decompress.cpp:60 | Making a path absolute, and looking a relative name up from the working directory: an absolute path stays as it is. A relative one gives the base directory followed by the path, with a '/' between them exactly when the base does not end in one. |
| Paths.JoinPath | Zip/src/Decompress.cpp:121 | Poco::Path(parent, file): an absolute file replaces the parent. A relative one replaces the parent's last segment, so the result is the parent up to its last '/' followed by the file, or the file alone when the parent has no '/'. A parent ending in '/' is kept whole. |
| Files.FileSystem.Open | Zip/src/Decompress.cpp:128-129 | The output stream opens exactly when the system allows it and the path is not a directory. An opened file is truncated to 0 bytes. |
| Decompression.CheckedName | Zip/src/Decompress.cpp:107-114 | In flatten mode the checked name is the part of the file form of the entry name after its last '/': a suffix without '/', preceded by '/' unless it is the whole name. Otherwise it is the entry name unchanged. |
| Decompression.Extract | Zip/src/Decompress.cpp:88-183 | Directory entry: no event and no file written. It throws exactly when flatten is off and the name contains ILLEGAL_PATH; otherwise it returns true. In flatten mode and on the throw the file system is unchanged. File entry: it returns, with exactly one event about the header, and true exactly when that event is EOk. No path becomes both file and directory. |
| Decompression.WriteOutput | Zip/src/Decompress.cpp:128-167 | From the open on: exactly one event about the header, true exactly when that event is EOk, and no path becomes both file and directory. |
| Decompression.ExtractFileStages | Zip/src/Decompress.cpp:119-127 | A file entry with a legal name adds at most one directory, its output path's parent, and keeps every file and directory before writing. Its effect is then WriteOutput on the output path and the relative path. |
| Decompression.WithParent | Zip/src/Decompress.cpp:123-127 | Creating the output's parent directory keeps every file and every directory and adds no other directory. The parent is added whenever the output path has one and no file occupies it; without a parent nothing changes. No path becomes both a file and a directory. |
| Decompression.ExtractIllegalName | Zip/src/Decompress.cpp:116-117 | A file entry whose checked name contains ILLEGAL_PATH returns false with one IllegalName error (the exception caught at lines 169-174). The file system is untouched: no output opened. |
| Decompression.ExtractOpenFailed | Zip/src/Decompress.cpp:128-134 | The entry is reported OpenFailed exactly when the system refuses the file or a directory occupies the output path. Only the parent directory is then created, and no file is written. |
| Decompression.ExtractCopyFailed | Zip/src/Decompress.cpp:135-136 | The entry is reported CopyFailed exactly when the output opened and the copy threw; the bytes written stay in the output file. The exception is caught at lines 169-180. |
| Decompression.ExtractCreateFailed | Zip/src/Decompress.cpp:138-144 | After a complete copy, the entry is reported CreateFailed exactly when the relative path is neither the output path nor an existing file. The output file is then left as written. |
| Decompression.ExtractCrcMismatch | Zip/src/Decompress.cpp:146-153 | The entry is reported CrcMismatch exactly when the copy completed with a bad CRC and the relative path is a regular file. That file is then removed unless incomplete files are kept. |
| Decompression.ExtractSizeMismatch | Zip/src/Decompress.cpp:155-164 | The entry is reported SizeMismatch exactly when the CRC matched, the sizes are in the header, and the relative path's size differs from the uncompressed size. The same cleanup applies. |
| Decompression.WriteOutputReasons | Zip/src/Decompress.cpp:128-164 | The output stage's error from its inputs: each reason's exact condition, and the file system each one leaves. |
| Decompression.ExtractSucceeds | Zip/src/Decompress.cpp:128-167 | A file entry is extracted exactly when all of these hold: the name is legal, the output opens, the copy completes with a valid CRC, the relative path is then a regular file, and its size is the header's uncompressed size or the sizes are deferred. It is then reported under the relative path, and the disk is exactly the one with the parent directory created and the output holding the bytes written. |
| Decompression.WriteOutputSucceeds | Zip/src/Decompress.cpp:128-167 | The same if-and-only-if for the output stage. On success the disk is exactly the input disk with the output holding the bytes written. |
| Decompression.ExtractMismatchCleanup | Zip/src/Decompress.cpp:146-164 | After a CRC or size mismatch, the file at the relative path is gone exactly when incomplete files are not kept. ExtractCrcMismatch and ExtractSizeMismatch give the inputs that lead to each mismatch. |
| Decompression.WriteOutputCleanup | Zip/src/Decompress.cpp:146-164 | The same cleanup rule for the output stage. WriteOutputReasons gives the inputs that lead to each mismatch. |
| Decompression.Cleanup | Zip/src/Decompress.cpp:146-164 | On a mismatch the incomplete file is kept as it is when incomplete files are kept. Otherwise that one file is removed and every other file, with its size, and every directory stay. |
| Decompression.ExtractDeferredSize | Zip/src/Decompress.cpp:155-157 | With deferred sizes no size mismatch is ever reported. |
| Decompression.WriteOutputDeferredSize | Zip/src/Decompress.cpp:157 | A size mismatch is reported only when the sizes are in the header. |
| Decompression.ExtractChecksRelativePath | Zip/src/Decompress.cpp:138-144 | When the relative path differs from the output path and names nothing, the entry is reported CreateFailed. The output file is still written. |
| Decompression.ExtractDirectoryCreated | Zip/src/Decompress.cpp:93-101 | A legal directory entry outside flatten mode creates the directory its own name denotes, looked up from the working directory; the disk is exactly the old one with that directory added. |
| Decompression.MappingOfAppend | Zip/src/Decompress.cpp:186-189 | An error event leaves the mapping as it is. A success event inserts name to path unless the name is already mapped. |
| Decompression.MappingKeys | Zip/src/Decompress.cpp:186-189 | A name is mapped exactly when some success event reports it. |
| Decompression.MappingFirst | Zip/src/Decompress.cpp:188 | A name maps to the path of its first success event. insert does not overwrite. |
| Decompression.MappingGrows | Zip/src/Decompress.cpp:188 | A later event never removes or changes a mapped name. |
| Decompression.Decompress.constructor | Zip/src/Decompress.cpp:53-58 | The settings are stored, and the mapping and the event log start empty. |
| Decompression.Decompress.OnOk | Zip/src/Decompress.cpp:186-189 | The mapping becomes the insert of name to path: an existing key keeps its value. |
| Decompression.Decompress.NotifyOk | Zip/src/Decompress.cpp:166-167 | One EOk is appended, and the mapping stays what onOk makes of the log. |
| Decompression.Decompress.NotifyError | Zip/src/Decompress.cpp:131-132 | One EError is appended, and the mapping is unchanged. |
| Decompression.Decompress.HandleZipEntry | Zip/src/Decompress.cpp:88-183 | The return value, the new file system and the events appended are exactly Extract's, and the mapping stays what onOk makes of the log. |
| Decompression.Decompress.WriteEntry | Zip/src/Decompress.cpp:128-167 | Opening, copying and the checks on the relative path have exactly WriteOutput's effect. |
| Decompression.Decompress.HandleEntry | Zip/src/Decompress.cpp:88-183 | One call of the handler throws exactly on a directory entry with an illegal name outside flatten mode. It logs one event for a file entry and none for a directory. The file system and the event logged are Extract's. |
| Decompression.Decompress.DecompressAllFiles | Zip/src/Decompress.cpp:80-85 | Requires an empty mapping. Handling the entries in order stops at the first that throws. Every file entry handled logs exactly one event, and the mapping is what onOk makes of the log. |
| Decompression.Open | Zip/src/Decompress.cpp:53-71 | The output directory, made absolute, is created when nothing exists there. The object is built exactly when a directory is then there, with empty mapping and log. Otherwise the error names the directory. |

## Left out

- Decompression.Decompress.DecompressAllFiles: states the number of events, where the walk stops, and that the mapping matches the events. The per-entry effects are stated by HandleZipEntry, not chained over the walk.
- The archive walker (ZipArchive) is not part of this model. It locates entries, parses each header and calls the handler, and the model takes the entries and the per-entry oracles in order. The precondition and the stop on an exception are modelled; how the walker itself reacts to a handler's exception is not.
- The entry handler's consumption of the payload is a parameter (`cursorAfter`). So are the data descriptor's values (`DataInfo`; ZipDataInfo is not part of this model) and the resynchronisation after a declined entry (ZipUtil::sync).
- LocalFileHeader.ReadLocalFileHeader: the debug assertion that a declined entry has no deferred sizes becomes the `DeclinedDeferred` error. Release builds would go on with sizes 0.
- ZipLocalFileHeader.h is not part of this model. Two of its definitions are taken as follows:
  - isDirectory: uncompressed size 0, method store, and a name ending in '/' (HeaderFormat.IsDirectory).
  - getMajorVersionNumber: the version byte, read as an unsigned value, divided by 10 (HeaderFormat.MajorVersion).
  The raw header is a `char` array. If the header divides a signed `char` on a platform where `char` is signed, version bytes 0x80-0xFF would pass the version check in the library, but the model rejects them as BadVersion.
- Decoding the DOS date and time (parseDateTime, setLastModifiedAt) is left out. The two 16-bit fields are carried as raw values.
- Choosing the host system through the platform macros is left out. The writing constructor takes the host byte as an argument, restricted to FAT, VMS and Unix.
- Short reads: std::istream would leave partial data. The model reports a `Truncated` error, because the library does not check the stream state.
- Poco::Path parsing is modelled only for '/'-separated names. Devices, Windows separators, "." and ".." segments, and the normalisation of repeated '/' are left out. makeAbsolute is resolution against a working directory.
- Poco::File::createDirectories creating missing ancestors, and any exception a file system call may throw other than those modelled (open failure, copy failure), are left out. Only the named directory is added.
- The payload decoder (ZipInputStream) and StreamCopier are replaced by the `Copy` input: bytes written and CRC validity, or a throw. Opening the output file is the `openOk` input.
- The constructor's assertion that the input stream is good is left out. The stream is not modelled on the extraction side.
- The event and delegate machinery (registering onOk, other observers) is left out. Notifications are an append-only log, with onOk applied on each success event.
- The texts of the error messages are left out. Each error event carries a `Reason` instead.
- Byte fields are integers in range, with the flag bit masks written arithmetically. The 16-bit name length is truncated with `% 0x1_0000`, as the cast does.
