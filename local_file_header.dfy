// The header object (Poco::Zip::ZipLocalFileHeader): the fixed block is kept in
// a 30-byte array that the setters write in place, next to the name, the extra
// field, the CRC, the sizes and the entry's start and end offsets. Each method is
// proved against the value-level definition of HeaderFormat.
module LocalFileHeader {
  import opened Wrappers
  import opened ZipCommon
  import opened ZipUtil
  import opened Streams
  import opened HeaderFormat

  class ZipLocalFileHeader {
    const rawHeader: array<byte>
    var startPos: int
    var endPos: int
    var fileName: ByteString
    var extraField: ByteString
    var crc32: uint32
    var compressedSize: uint32
    var uncompressedSize: uint32

    ghost predicate Valid()
      reads this
    {
      rawHeader.Length == FULLHEADER_SIZE
    }

    /** The header this object holds, as a value. */
    ghost function Value(): Header
      reads this, rawHeader
      requires Valid()
    {
      Header(rawHeader[..], fileName, extraField, crc32, compressedSize, uncompressedSize)
    }

    /** The writing constructor: a blank fixed block for the platform's host system,
        with encryption off, no extra field and the modification time, then init. */
    constructor ForEntry(path: ByteString, dosTime: uint16, dosDate: uint16, cm: uint16, cl: byte, hs: byte)
      requires |path| > 0 && cl <= CL_SUPERFAST
      requires hs == HS_FAT || hs == HS_VMS || hs == HS_UNIX
      ensures Valid() && fresh(rawHeader)
      ensures startPos == -1 && endPos == -1
      ensures Value() == NewHeader(path, dosTime, dosDate, cm, cl, hs)
    {
      rawHeader := new byte[FULLHEADER_SIZE](i => if 0 <= i < HEADER_SIZE then LOCAL_HEADER_MAGIC[i] else 0);
      startPos := -1;
      endPos := -1;
      fileName := "";
      extraField := "";
      crc32 := 0;
      compressedSize := 0;
      uncompressedSize := 0;
      new;
      WriteBlank(hs, dosTime, dosDate);
      Init(path, cm, cl);
    }

    /** The writing constructor's steps before init: host system, encryption off,
        extra field size 0, modification time. */
    method WriteBlank(hs: byte, dosTime: uint16, dosDate: uint16)
      requires Valid() && fileName == "" && extraField == ""
      requires crc32 == 0 && compressedSize == 0 && uncompressedSize == 0
      requires forall i :: 0 <= i < FULLHEADER_SIZE ==> rawHeader[i] == if i < HEADER_SIZE then LOCAL_HEADER_MAGIC[i] else 0
      modifies rawHeader
      ensures Value() == BlankHeader(hs, dosTime, dosDate)
    {
      assert rawHeader[..] == LOCAL_HEADER_MAGIC + seq(FULLHEADER_SIZE - HEADER_SIZE, i => 0);
      rawHeader[HOST_SYSTEM_POS] := hs;
      ClearEncryption();
      Put16(EXTRAFIELD_POS, 0);
      Put16(LASTMODEFILETIME_POS, dosTime);
      Put16(LASTMODEFILEDATE_POS, dosDate);
    }

    /** An object for a header read from a stream: the fields start out empty and
        zero, and the start offset is the one given. */
    constructor Reading(start: int)
      ensures Valid() && fresh(rawHeader)
      ensures startPos == start && endPos == -1
      ensures fileName == "" && extraField == ""
      ensures crc32 == 0 && compressedSize == 0 && uncompressedSize == 0
    {
      rawHeader := new byte[FULLHEADER_SIZE](i => 0);
      startPos := start;
      endPos := -1;
      fileName := "";
      extraField := "";
      crc32 := 0;
      compressedSize := 0;
      uncompressedSize := 0;
    }

    // -------------------------------------------------------------------------
    // Writes into the fixed block

    method Put16(pos: nat, v: uint16)
      requires Valid() && pos + 2 <= FULLHEADER_SIZE
      modifies rawHeader
      ensures rawHeader[..] == Set16(old(rawHeader[..]), pos, v)
    {
      rawHeader[pos] := v % 0x100;
      rawHeader[pos + 1] := v / 0x100;
    }

    method Put32(pos: nat, v: uint32)
      requires Valid() && pos + 4 <= FULLHEADER_SIZE
      modifies rawHeader
      ensures rawHeader[..] == Set32(old(rawHeader[..]), pos, v)
    {
      Put16(pos, v % 0x1_0000);
      Put16(pos + 2, v / 0x1_0000);
    }

    /** Copies `bytes` into the fixed block from offset `at`. */
    method PutBytes(at: nat, bytes: seq<byte>)
      requires Valid() && at + |bytes| <= FULLHEADER_SIZE
      modifies rawHeader
      ensures rawHeader[..] == old(rawHeader[..at]) + bytes + old(rawHeader[at + |bytes|..])
    {
      forall i | at <= i < at + |bytes| {
        rawHeader[i] := bytes[i - at];
      }
    }

    // -------------------------------------------------------------------------
    // Setters (each writes the object and the fixed block alike)

    method SetCRC(v: uint32)
      requires Valid()
      modifies this, rawHeader
      ensures Valid() && Value() == old(Value()).(crc32 := v, raw := Set32(old(rawHeader[..]), CRC32_POS, v))
      ensures startPos == old(startPos) && endPos == old(endPos)
    {
      crc32 := v;
      Put32(CRC32_POS, v);
    }

    method SetCompressedSize(v: uint32)
      requires Valid()
      modifies this, rawHeader
      ensures Valid() && Value() == old(Value()).(compressedSize := v, raw := Set32(old(rawHeader[..]), COMPRESSED_SIZE_POS, v))
      ensures startPos == old(startPos) && endPos == old(endPos)
    {
      compressedSize := v;
      Put32(COMPRESSED_SIZE_POS, v);
    }

    method SetUncompressedSize(v: uint32)
      requires Valid()
      modifies this, rawHeader
      ensures Valid() && Value() == old(Value()).(uncompressedSize := v, raw := Set32(old(rawHeader[..]), UNCOMPRESSED_SIZE_POS, v))
      ensures startPos == old(startPos) && endPos == old(endPos)
    {
      uncompressedSize := v;
      Put32(UNCOMPRESSED_SIZE_POS, v);
    }

    method SetCompressionMethod(cm: uint16)
      requires Valid()
      modifies rawHeader
      ensures rawHeader[..] == Set16(old(rawHeader[..]), COMPR_METHOD_POS, cm)
    {
      Put16(COMPR_METHOD_POS, cm);
    }

    method SetCompressionLevel(cl: byte)
      requires Valid() && cl <= CL_SUPERFAST
      modifies rawHeader
      ensures rawHeader[..] == SetCompressionLevelBits(old(rawHeader[..]), cl)
    {
      var flags := rawHeader[GENERAL_PURPOSE_POS];
      rawHeader[GENERAL_PURPOSE_POS] := flags - 2 * ((flags / 2) % 4) + 2 * cl;
    }

    /** setSearchCRCAndSizesAfterData(false). */
    method ClearSearchCRCAndSizesAfterData()
      requires Valid()
      modifies rawHeader
      ensures rawHeader[..] == ClearDeferredBit(old(rawHeader[..]))
    {
      var flags := rawHeader[GENERAL_PURPOSE_POS];
      if Bit3(flags) {
        rawHeader[GENERAL_PURPOSE_POS] := flags - 8;
      }
    }

    /** setEncryption(false). */
    method ClearEncryption()
      requires Valid()
      modifies rawHeader
      ensures rawHeader[..] == ClearEncryptionBit(old(rawHeader[..]))
    {
      var flags := rawHeader[GENERAL_PURPOSE_POS];
      rawHeader[GENERAL_PURPOSE_POS] := flags - flags % 2;
    }

    // -------------------------------------------------------------------------
    // The operations

    /** setFileName: the stored name and its length field become those WithFileName
        gives; a directory also gets CRC and sizes 0, method store and level normal. */
    method SetFileName(name: ByteString, isDirectory: bool)
      requires Valid() && |name| > 0
      modifies this, rawHeader
      ensures Valid() && Value() == WithFileName(old(Value()), name, isDirectory)
      ensures startPos == old(startPos) && endPos == old(endPos)
    {
      if isDirectory {
        SetCRC(0);
        SetCompressedSize(0);
        SetUncompressedSize(0);
        SetCompressionMethod(CM_STORE);
        SetCompressionLevel(CL_NORMAL);
      }
      fileName := NormalizedName(name, isDirectory);
      Put16(FILELENGTH_POS, |fileName| % 0x1_0000);
    }

    /** init: the header becomes InitHeader of what it was. */
    method Init(path: ByteString, cm: uint16, cl: byte)
      requires Valid() && |fileName| == 0 && |path| > 0 && cl <= CL_SUPERFAST
      modifies this, rawHeader
      ensures Valid() && Value() == InitHeader(old(Value()), path, cm, cl)
      ensures startPos == old(startPos) && endPos == old(endPos)
    {
      ClearSearchCRCAndSizesAfterData();
      var isDirectory := IsDirectoryPath(path);
      SetFileName(path, isDirectory);
      rawHeader[VERSION_POS] := VERSION_2_0;
      if !isDirectory {
        SetCompressionMethod(cm);
        SetCompressionLevel(cl);
      } else {
        SetCompressionMethod(CM_STORE);
      }
    }

    /** parse: reads the header at the stream's cursor into this object. It fails
        exactly where ParseHeader fails, with the same error; otherwise the object
        holds ParseHeader's header and the cursor is just past it. */
    method Parse(inp: InputStream, assumeHeaderRead: bool) returns (err: Option<FormatError>)
      requires Valid()
      requires fileName == "" && extraField == "" && crc32 == 0 && compressedSize == 0 && uncompressedSize == 0
      modifies this, rawHeader, inp`pos
      ensures Valid()
      ensures startPos == old(startPos) && endPos == old(endPos)
      ensures match ParseHeader(inp.data, old(inp.pos), assumeHeaderRead)
        case Ok(p) => err == None && Value() == p.header && inp.pos == p.next
        case Err(e) => err == Some(e)
    {
      ghost var data := inp.data;
      ghost var pos := inp.pos;
      err := ReadFixedBlock(inp, assumeHeaderRead);
      if err.Some? {
        return;
      }
      ParseHeaderStages(data, pos, assumeHeaderRead);
      err := ReadNameAndExtra(inp);
    }

    /** The first half of parse: the signature (read, or written in when the caller
        has consumed it) and the rest of the fixed block, with its checks. */
    method ReadFixedBlock(inp: InputStream, assumeHeaderRead: bool) returns (err: Option<FormatError>)
      requires Valid()
      modifies rawHeader, inp`pos
      ensures var data := inp.data;
        var pos := old(inp.pos);
        var start := BlockStart(pos, assumeHeaderRead);
        err.None? ==>
          && start + 26 <= |data|
          && (!assumeHeaderRead ==> data[pos..pos + HEADER_SIZE] == LOCAL_HEADER_MAGIC)
          && rawHeader[..] == FixedBlockAt(data, pos, assumeHeaderRead)
          && ValidFixedBlock(rawHeader[..])
          && inp.pos == start + 26
      ensures err.Some? ==> ParseHeader(inp.data, old(inp.pos), assumeHeaderRead) == Err(err.value)
    {
      ghost var pos := inp.pos;
      if !assumeHeaderRead {
        var sig := inp.Read(HEADER_SIZE);
        if sig.None? {
          return Some(Truncated);
        }
        PutBytes(0, sig.value);
      } else {
        PutBytes(0, LOCAL_HEADER_MAGIC);
      }
      if rawHeader[..HEADER_SIZE] != LOCAL_HEADER_MAGIC {
        return Some(BadSignature);
      }
      var rest := inp.Read(FULLHEADER_SIZE - HEADER_SIZE);
      if rest.None? {
        return Some(Truncated);
      }
      PutBytes(HEADER_SIZE, rest.value);
      var raw: RawHeader := rawHeader[..];
      assert raw == FixedBlockAt(inp.data, pos, assumeHeaderRead);
      ParseHeaderChecks(inp.data, pos, assumeHeaderRead);
      if !(HS_FAT <= HostSystem(raw) < HS_UNUSED) {
        return Some(BadHostSystem);
      }
      if MajorVersion(raw) > 2 {
        return Some(BadVersion);
      }
      if CompressionMethod(raw) >= CM_UNUSED {
        return Some(BadCompressionMethod);
      }
      err := None;
    }

    /** The second half of parse: the name, the extra field when there is one, and
        the CRC and sizes from the fixed block unless they are deferred. */
    method ReadNameAndExtra(inp: InputStream) returns (err: Option<FormatError>)
      requires Valid() && ValidFixedBlock(rawHeader[..])
      requires extraField == "" && crc32 == 0 && compressedSize == 0 && uncompressedSize == 0
      modifies this, inp`pos
      ensures startPos == old(startPos) && endPos == old(endPos)
      ensures match ParseNameAndExtra(inp.data, old(inp.pos), rawHeader[..])
        case Ok(p) => err == None && Value() == p.header && inp.pos == p.next
        case Err(e) => err == Some(e)
    {
      var raw: RawHeader := rawHeader[..];
      ParseNameAndExtraCases(inp.data, inp.pos, raw);
      var parts := ReadNameAndExtraBytes(inp, FileNameLength(raw), ExtraFieldLength(raw));
      if parts.None? {
        return Some(Truncated);
      }
      fileName := ToChars(parts.value.0);
      if HasExtraField(raw) {
        extraField := ToChars(parts.value.1);
      }
      if !SearchCRCAndSizesAfterData(raw) {
        crc32 := CrcFromHeader(raw);
        compressedSize := CompressedSizeFromHeader(raw);
        uncompressedSize := UncompressedSizeFromHeader(raw);
      }
      err := None;
      EntryOfFields(raw, parts.value.0, parts.value.1, Value());
    }

    /** The rest of the reading constructor once the entry handler has answered:
        the CRC and sizes come from the data descriptor when they are deferred and
        the payload was consumed; a declined entry with deferred sizes is refused.
        The end offset is then set from the start offset, the header size and the
        compressed size. */
    method Complete(accepted: bool, info: DataInfo) returns (err: Option<FormatError>)
      requires Valid()
      modifies this, rawHeader
      ensures Valid() && startPos == old(startPos)
      ensures match Resolve(old(Value()), accepted, info)
        case Ok(h) => err == None && Value() == h && endPos == EndPos(startPos, h)
        case Err(e) => err == Some(e)
    {
      if SearchCRCAndSizesAfterData(rawHeader[..]) {
        if !accepted {
          return Some(DeclinedDeferred);
        }
        SetCRC(info.crc32);
        SetCompressedSize(info.compressedSize);
        SetUncompressedSize(info.uncompressedSize);
      }
      endPos := startPos + HeaderSize(rawHeader[..]) + compressedSize;
      err := None;
    }

    /** createHeader: the encoded header. */
    method CreateHeader() returns (r: seq<byte>)
      requires Valid()
      ensures r == HeaderFormat.CreateHeader(Value())
    {
      r := rawHeader[..] + ToBytes(fileName) + ToBytes(extraField);
    }
  }

  /** Reads the file name and, when the header announces one, the extra field that
      follow the fixed block; either read running past the end of the stream is a
      truncated header. */
  method ReadNameAndExtraBytes(inp: InputStream, nameLength: nat, extraLength: nat)
      returns (r: Option<(seq<byte>, seq<byte>)>)
    modifies inp`pos
    ensures var start := old(inp.pos);
      var nameEnd := start + nameLength;
      var next := nameEnd + extraLength;
      && (next <= |inp.data| ==>
            r == Some((inp.data[start..nameEnd], inp.data[nameEnd..next])) && inp.pos == next)
      && (|inp.data| < next ==> r == None)
  {
    var name := inp.Read(nameLength);
    if name.None? {
      return None;
    }
    var extra: seq<byte> := [];
    assert extra == inp.data[inp.pos..inp.pos];
    if extraLength > 0 {
      var e := inp.Read(extraLength);
      if e.None? {
        return None;
      }
      extra := e.value;
    }
    r := Some((name.value, extra));
  }

  /** The reading constructor: records where the header starts (four bytes earlier
      when the caller has consumed the signature), parses, and then lets the entry
      handler run. `accepted` is the handler's answer, `info` the data descriptor
      that follows the payload, and `cursorAfter` where the handler, the descriptor
      read or the resynchronisation leave the stream. A declined entry whose sizes
      are deferred is refused. The end offset counts the header and the compressed
      payload but not the data descriptor. */
  method ReadLocalFileHeader(inp: InputStream, assumeHeaderRead: bool, accepted: bool, info: DataInfo, cursorAfter: nat)
    returns (r: Result<ZipLocalFileHeader, FormatError>)
    modifies inp`pos
    ensures match ParseHeader(inp.data, old(inp.pos), assumeHeaderRead)
      case Err(e) => r == Err(e)
      case Ok(p) =>
        match Resolve(p.header, accepted, info)
        case Err(e) => r == Err(e)
        case Ok(h) =>
          && r.Ok? && fresh(r.value) && fresh(r.value.rawHeader) && r.value.Valid()
          && r.value.Value() == h
          && r.value.startPos == old(inp.pos) - (if assumeHeaderRead then HEADER_SIZE else 0)
          && r.value.endPos == EndPos(r.value.startPos, h)
          && inp.pos == cursorAfter
  {
    var start := inp.Tell();
    var startPos := if assumeHeaderRead then start - HEADER_SIZE else start;
    var header := new ZipLocalFileHeader.Reading(startPos);
    var err := header.Parse(inp, assumeHeaderRead);
    if err.Some? {
      return Err(err.value);
    }
    inp.SeekTo(cursorAfter);
    err := header.Complete(accepted, info);
    if err.Some? {
      return Err(err.value);
    }
    r := Ok(header);
  }
}
