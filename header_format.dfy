// The local file header of one archive entry (Poco::Zip::ZipLocalFileHeader) as
// a value, with its decoding and encoding: the 30-byte fixed block of PKWARE
// APPNOTE.TXT section 4.3.7, the file name and the extra field that follow it,
// and the CRC and sizes, which either come from the fixed block or, when
// deferred, from the data descriptor of section 4.3.9.
module HeaderFormat {
  import opened Wrappers
  import opened ZipCommon
  import opened ZipUtil

  // Field offsets in the fixed block (APPNOTE section 4.3.7).
  const FULLHEADER_SIZE: nat := 30
  const VERSION_POS: nat := 4
  const HOST_SYSTEM_POS: nat := VERSION_POS + 1
  const GENERAL_PURPOSE_POS: nat := 6
  const COMPR_METHOD_POS: nat := 8
  const LASTMODEFILETIME_POS: nat := 10
  const LASTMODEFILEDATE_POS: nat := 12
  const CRC32_POS: nat := 14
  const COMPRESSED_SIZE_POS: nat := 18
  const UNCOMPRESSED_SIZE_POS: nat := 22
  const FILELENGTH_POS: nat := 26
  const EXTRAFIELD_POS: nat := 28

  /** The version byte written by the encoder: 2.0, stored as 10 * major + minor. */
  const VERSION_2_0: byte := 20

  type RawHeader = s: seq<byte> | |s| == FULLHEADER_SIZE witness seq(30, i => 0)

  /** One entry's header as a value: the raw fixed block, the name and extra field
      read after it, and the CRC and sizes the header object holds. */
  datatype Header = Header(
    raw: RawHeader,
    fileName: ByteString,
    extraField: ByteString,
    crc32: uint32,
    compressedSize: uint32,
    uncompressedSize: uint32)

  /** The CRC and sizes of a data descriptor (APPNOTE section 4.3.9). */
  datatype DataInfo = DataInfo(crc32: uint32, compressedSize: uint32, uncompressedSize: uint32)

  /** Why decoding a header failed. */
  datatype FormatError =
    | Truncated            // the stream ended inside the header
    | BadSignature         // the first four bytes are not the local header signature
    | BadHostSystem        // the host byte is not a recognised host system
    | BadVersion           // the required major version is above 2
    | BadCompressionMethod // the compression method is not a recognised one
    | DeclinedDeferred     // the entry's payload was not consumed although its sizes are deferred

  // Accessors of the fixed block.

  function HostSystem(raw: RawHeader): byte { raw[HOST_SYSTEM_POS] }
  function MajorVersion(raw: RawHeader): byte { raw[VERSION_POS] / 10 }
  function Flags(raw: RawHeader): uint16 { Get16(raw, GENERAL_PURPOSE_POS) }
  function CompressionMethod(raw: RawHeader): uint16 { Get16(raw, COMPR_METHOD_POS) }
  /** Bits 1 and 2 of the flags: (flags >> 1) & 0x0003. They lie in the low byte. */
  function CompressionLevel(raw: RawHeader): (l: byte)
    ensures l == (raw[GENERAL_PURPOSE_POS] / 2) % 4
  {
    LowByteLevelBits(raw[GENERAL_PURPOSE_POS], raw[GENERAL_PURPOSE_POS + 1]);
    (Flags(raw) / 2) % 4
  }
  function FileNameLength(raw: RawHeader): uint16 { Get16(raw, FILELENGTH_POS) }
  function ExtraFieldLength(raw: RawHeader): uint16 { Get16(raw, EXTRAFIELD_POS) }
  predicate HasExtraField(raw: RawHeader) { ExtraFieldLength(raw) > 0 }
  function CrcFromHeader(raw: RawHeader): uint32 { Get32(raw, CRC32_POS) }
  function CompressedSizeFromHeader(raw: RawHeader): uint32 { Get32(raw, COMPRESSED_SIZE_POS) }
  function UncompressedSizeFromHeader(raw: RawHeader): uint32 { Get32(raw, UNCOMPRESSED_SIZE_POS) }

  /** Bit 3 of a flag value: x & 0x0008 != 0. */
  predicate Bit3(x: nat) { (x / 8) % 2 == 1 }

  /** Bits 1 and 2 of a 16-bit little-endian value are those of its low byte. */
  lemma LowByteLevelBits(lo: byte, hi: byte)
    ensures ((lo + 0x100 * hi) / 2) % 4 == (lo / 2) % 4
  {
    var q := lo / 2;
    assert lo + 0x100 * hi == 2 * (q + 0x80 * hi) + lo % 2;
    assert (lo + 0x100 * hi) / 2 == q + 0x80 * hi;
    assert q + 0x80 * hi == 4 * (q / 4 + 0x20 * hi) + q % 4;
  }

  /** Bit 3 of a 16-bit little-endian value is that of its low byte. */
  lemma LowByteBit3(lo: byte, hi: byte)
    ensures Bit3(lo + 0x100 * hi) <==> Bit3(lo)
  {
    var q := lo / 8;
    assert lo + 0x100 * hi == 8 * (q + 0x20 * hi) + lo % 8;
    assert (lo + 0x100 * hi) / 8 == q + 0x20 * hi;
    assert q + 0x20 * hi == 2 * (q / 2 + 0x10 * hi) + q % 2;
  }

  /** Bytes taken by the header in the stream: the fixed block, the name and the extra field. */
  function HeaderSize(raw: RawHeader): (n: nat)
    ensures n == FULLHEADER_SIZE + FileNameLength(raw) + ExtraFieldLength(raw)
  {
    FULLHEADER_SIZE + FileNameLength(raw) + (if HasExtraField(raw) then ExtraFieldLength(raw) else 0)
  }

  /** True when CRC and sizes follow the payload: the method is deflate and bit 3
      of the general purpose flags is set. For every other method the bit is ignored. */
  predicate SearchCRCAndSizesAfterData(raw: RawHeader)
    ensures SearchCRCAndSizesAfterData(raw) ==> CompressionMethod(raw) == CM_DEFLATE
    ensures CompressionMethod(raw) == CM_DEFLATE ==>
      (SearchCRCAndSizesAfterData(raw) <==> Bit3(raw[GENERAL_PURPOSE_POS]))
  {
    if CompressionMethod(raw) == CM_DEFLATE then
      LowByteBit3(raw[GENERAL_PURPOSE_POS], raw[GENERAL_PURPOSE_POS + 1]);
      Bit3(Get16(raw, GENERAL_PURPOSE_POS))
    else
      false
  }

  /** The checks decoding makes on the fixed block. */
  predicate ValidFixedBlock(raw: RawHeader)
  {
    && raw[..HEADER_SIZE] == LOCAL_HEADER_MAGIC
    && HS_FAT <= HostSystem(raw) < HS_UNUSED
    && MajorVersion(raw) <= 2
    && CompressionMethod(raw) < CM_UNUSED
  }

  /** A header whose name, extra field, CRC and sizes agree with its fixed block,
      as decoding leaves them. */
  predicate Consistent(h: Header)
  {
    && ValidFixedBlock(h.raw)
    && FileNameLength(h.raw) == |h.fileName|
    && ExtraFieldLength(h.raw) == |h.extraField|
    && (if SearchCRCAndSizesAfterData(h.raw) then
          h.crc32 == 0 && h.compressedSize == 0 && h.uncompressedSize == 0
        else
          && h.crc32 == CrcFromHeader(h.raw)
          && h.compressedSize == CompressedSizeFromHeader(h.raw)
          && h.uncompressedSize == UncompressedSizeFromHeader(h.raw))
  }

  /** A directory entry: nothing stored, method store, and a name ending in '/'. */
  predicate IsDirectory(h: Header)
  {
    && h.uncompressedSize == 0
    && CompressionMethod(h.raw) == CM_STORE
    && |h.fileName| > 0 && h.fileName[|h.fileName| - 1] == '/'
  }

  // ---------------------------------------------------------------------------
  // Decoding

  /** A decoded header and the stream position just after it. */
  datatype Parsed = Parsed(header: Header, next: nat)

  /** Where the 26 bytes after the signature start. */
  function BlockStart(pos: nat, assumeHeaderRead: bool): nat
  {
    if assumeHeaderRead then pos else pos + HEADER_SIZE
  }

  /** The fixed block decoding builds: the signature (read or, when the caller has
      already consumed it, written in) followed by the next 26 bytes. */
  function FixedBlockAt(data: seq<byte>, pos: nat, assumeHeaderRead: bool): RawHeader
    requires BlockStart(pos, assumeHeaderRead) + 26 <= |data|
  {
    var start := BlockStart(pos, assumeHeaderRead);
    LOCAL_HEADER_MAGIC + data[start..start + 26]
  }

  /** Everything decoding needs of the bytes, stated as one conjunction: enough
      bytes, the signature (when read), the checks on the fixed block, and room for
      the name and extra field. */
  predicate Decodable(data: seq<byte>, pos: nat, assumeHeaderRead: bool)
  {
    var start := BlockStart(pos, assumeHeaderRead);
    && start + 26 <= |data|
    && (!assumeHeaderRead ==> data[pos..pos + HEADER_SIZE] == LOCAL_HEADER_MAGIC)
    && ValidFixedBlock(FixedBlockAt(data, pos, assumeHeaderRead))
    && start + 26 + HeaderSize(FixedBlockAt(data, pos, assumeHeaderRead)) - FULLHEADER_SIZE <= |data|
  }

  /** The header decoding builds from a checked fixed block and the name and extra
      field bytes read after it: CRC and sizes are taken from the fixed block unless
      they are deferred, in which case they stay 0. */
  function EntryFromBlock(raw: RawHeader, name: seq<byte>, extra: seq<byte>): (h: Header)
    requires ValidFixedBlock(raw)
    requires |name| == FileNameLength(raw) && |extra| == ExtraFieldLength(raw)
    ensures Consistent(h)
    ensures h.raw == raw && h.fileName == ToChars(name) && h.extraField == ToChars(extra)
  {
    var deferred := SearchCRCAndSizesAfterData(raw);
    Header(
      raw,
      ToChars(name),
      ToChars(extra),
      if deferred then 0 else CrcFromHeader(raw),
      if deferred then 0 else CompressedSizeFromHeader(raw),
      if deferred then 0 else UncompressedSizeFromHeader(raw))
  }

  /** Decodes the header at `pos` (ZipLocalFileHeader::parse): it succeeds exactly
      when the bytes are Decodable, and then yields a consistent header whose fixed
      block is the one at `pos`. */
  function ParseHeader(data: seq<byte>, pos: nat, assumeHeaderRead: bool): (r: Result<Parsed, FormatError>)
    ensures r.Ok? <==> Decodable(data, pos, assumeHeaderRead)
    ensures r.Ok? ==> r.value.header.raw == FixedBlockAt(data, pos, assumeHeaderRead) && Consistent(r.value.header)
    ensures r != Err(DeclinedDeferred)
  {
    var start := BlockStart(pos, assumeHeaderRead);
    if !assumeHeaderRead && |data| < pos + HEADER_SIZE then Err(Truncated)
    else if !assumeHeaderRead && data[pos..pos + HEADER_SIZE] != LOCAL_HEADER_MAGIC then Err(BadSignature)
    else if |data| < start + 26 then Err(Truncated)
    else
      var raw := FixedBlockAt(data, pos, assumeHeaderRead);
      if !(HS_FAT <= HostSystem(raw) < HS_UNUSED) then Err(BadHostSystem)
      else if MajorVersion(raw) > 2 then Err(BadVersion)
      else if CompressionMethod(raw) >= CM_UNUSED then Err(BadCompressionMethod)
      else ParseNameAndExtra(data, start + 26, raw)
  }

  /** Once the signature has been read (or was consumed by the caller) and the 26
      bytes after it are there, decoding is decided by the checks on the fixed block,
      in order, and then by the name and extra field. */
  lemma ParseHeaderChecks(data: seq<byte>, pos: nat, assumeHeaderRead: bool)
    requires BlockStart(pos, assumeHeaderRead) + 26 <= |data|
    requires !assumeHeaderRead ==> data[pos..pos + HEADER_SIZE] == LOCAL_HEADER_MAGIC
    ensures var raw := FixedBlockAt(data, pos, assumeHeaderRead);
      ParseHeader(data, pos, assumeHeaderRead)
        == if !(HS_FAT <= HostSystem(raw) < HS_UNUSED) then Err(BadHostSystem)
           else if MajorVersion(raw) > 2 then Err(BadVersion)
           else if CompressionMethod(raw) >= CM_UNUSED then Err(BadCompressionMethod)
           else ParseNameAndExtra(data, BlockStart(pos, assumeHeaderRead) + 26, raw)
  {
  }

  /** Once the signature and a valid fixed block have been read, decoding is
      decided by the name and extra field. */
  lemma ParseHeaderStages(data: seq<byte>, pos: nat, assumeHeaderRead: bool)
    requires BlockStart(pos, assumeHeaderRead) + 26 <= |data|
    requires !assumeHeaderRead ==> data[pos..pos + HEADER_SIZE] == LOCAL_HEADER_MAGIC
    requires ValidFixedBlock(FixedBlockAt(data, pos, assumeHeaderRead))
    ensures ParseHeader(data, pos, assumeHeaderRead)
         == ParseNameAndExtra(data, BlockStart(pos, assumeHeaderRead) + 26, FixedBlockAt(data, pos, assumeHeaderRead))
  {
  }

  /** The second half of decoding either reads the name and extra field where the
      lengths say, or finds the stream too short. */
  lemma ParseNameAndExtraCases(data: seq<byte>, nameStart: nat, raw: RawHeader)
    requires ValidFixedBlock(raw)
    ensures var nameEnd := nameStart + FileNameLength(raw);
      var next := nameEnd + ExtraFieldLength(raw);
      ParseNameAndExtra(data, nameStart, raw)
        == if next <= |data| then Ok(Parsed(EntryFromBlock(raw, data[nameStart..nameEnd], data[nameEnd..next]), next))
           else Err(Truncated)
  {
  }

  /** The second half of decoding, after a checked fixed block: reads the name and,
      when there is one, the extra field from `nameStart`. It fails only on a
      stream that ends too early. */
  function ParseNameAndExtra(data: seq<byte>, nameStart: nat, raw: RawHeader): (r: Result<Parsed, FormatError>)
    requires ValidFixedBlock(raw)
    ensures r.Ok? <==> nameStart + FileNameLength(raw) + ExtraFieldLength(raw) <= |data|
    ensures r.Ok? ==> r.value.header.raw == raw && Consistent(r.value.header)
    ensures r.Err? ==> r.error == Truncated
  {
    var nameEnd := nameStart + FileNameLength(raw);
    if |data| < nameEnd then Err(Truncated)
    else
      var extraLen := if HasExtraField(raw) then ExtraFieldLength(raw) else 0;
      if |data| < nameEnd + extraLen then Err(Truncated)
      else
        Ok(Parsed(EntryFromBlock(raw, data[nameStart..nameEnd], data[nameEnd..nameEnd + extraLen]),
                  nameEnd + extraLen))
  }

  /** Where a decoded header's parts come from: a signature (unless already
      consumed) and a fixed block that pass the checks, then the file name in the
      name-length bytes after the fixed block and the extra field in the
      extra-length bytes after the name; decoding stops after them. */
  lemma ParseHeaderLayout(data: seq<byte>, pos: nat, assumeHeaderRead: bool)
    requires ParseHeader(data, pos, assumeHeaderRead).Ok?
    ensures var nameStart := BlockStart(pos, assumeHeaderRead) + 26;
      && nameStart <= |data|
      && (!assumeHeaderRead ==> data[pos..pos + HEADER_SIZE] == LOCAL_HEADER_MAGIC)
      && ValidFixedBlock(FixedBlockAt(data, pos, assumeHeaderRead))
      && var raw := FixedBlockAt(data, pos, assumeHeaderRead);
         var nameEnd := nameStart + FileNameLength(raw);
         var next := nameEnd + ExtraFieldLength(raw);
         && next <= |data|
         && ParseHeader(data, pos, assumeHeaderRead)
            == Ok(Parsed(EntryFromBlock(raw, data[nameStart..nameEnd], data[nameEnd..next]), next))
  {
    var start := BlockStart(pos, assumeHeaderRead);
    assert start + 26 <= |data|;
    assert !assumeHeaderRead ==> data[pos..pos + HEADER_SIZE] == LOCAL_HEADER_MAGIC;
    var raw := FixedBlockAt(data, pos, assumeHeaderRead);
    assert ValidFixedBlock(raw);
    ParseHeaderStages(data, pos, assumeHeaderRead);
    ParseNameAndExtraCases(data, start + 26, raw);
  }

  /** Decoding consumes exactly the header's size from its start (the signature
      included even when the caller had already read it). */
  lemma ParseHeaderSize(data: seq<byte>, pos: nat, assumeHeaderRead: bool)
    requires ParseHeader(data, pos, assumeHeaderRead).Ok?
    ensures var p := ParseHeader(data, pos, assumeHeaderRead).value;
      p.next == pos + HeaderSize(p.header.raw) - (if assumeHeaderRead then HEADER_SIZE else 0)
  {
    ParseHeaderLayout(data, pos, assumeHeaderRead);
  }

  /** Each error names the check that failed. */
  lemma ParseHeaderRejects(data: seq<byte>, pos: nat, assumeHeaderRead: bool)
    requires ParseHeader(data, pos, assumeHeaderRead).Err?
    ensures var e := ParseHeader(data, pos, assumeHeaderRead).error;
      var start := BlockStart(pos, assumeHeaderRead);
      && (e == BadSignature ==> !assumeHeaderRead && pos + HEADER_SIZE <= |data| && data[pos..pos + HEADER_SIZE] != LOCAL_HEADER_MAGIC)
      && (e == BadHostSystem ==> start + 26 <= |data| && HostSystem(FixedBlockAt(data, pos, assumeHeaderRead)) >= HS_UNUSED)
      && (e == BadVersion ==> start + 26 <= |data| && MajorVersion(FixedBlockAt(data, pos, assumeHeaderRead)) > 2)
      && (e == BadCompressionMethod ==> start + 26 <= |data| && CompressionMethod(FixedBlockAt(data, pos, assumeHeaderRead)) >= CM_UNUSED)
  {
  }

  /** What the stream constructor does with a decoded header once the callback has
      answered: copy the data descriptor's values when the payload was consumed and
      they were deferred; refuse a declined entry whose sizes are deferred. */
  function Resolve(h: Header, accepted: bool, info: DataInfo): (r: Result<Header, FormatError>)
    ensures !SearchCRCAndSizesAfterData(h.raw) ==> r == Ok(h)
    ensures SearchCRCAndSizesAfterData(h.raw) && !accepted ==> r == Err(DeclinedDeferred)
    ensures SearchCRCAndSizesAfterData(h.raw) && accepted ==>
      && r.Ok?
      && r.value.fileName == h.fileName && r.value.extraField == h.extraField
      && r.value.crc32 == info.crc32
      && r.value.compressedSize == info.compressedSize
      && r.value.uncompressedSize == info.uncompressedSize
      && CrcFromHeader(r.value.raw) == info.crc32
      && CompressedSizeFromHeader(r.value.raw) == info.compressedSize
      && UncompressedSizeFromHeader(r.value.raw) == info.uncompressedSize
      && r.value.raw[..CRC32_POS] == h.raw[..CRC32_POS]
      && r.value.raw[FILELENGTH_POS..] == h.raw[FILELENGTH_POS..]
  {
    if !SearchCRCAndSizesAfterData(h.raw) then Ok(h)
    else if !accepted then Err(DeclinedDeferred)
    else
      var raw := Set32(Set32(Set32(h.raw, CRC32_POS, info.crc32),
                             COMPRESSED_SIZE_POS, info.compressedSize),
                       UNCOMPRESSED_SIZE_POS, info.uncompressedSize);
      Ok(h.(raw := raw, crc32 := info.crc32, compressedSize := info.compressedSize,
            uncompressedSize := info.uncompressedSize))
  }

  /** The end offset recorded for an entry: its start, plus the header, plus the
      compressed size; the data descriptor is not counted. */
  function EndPos(startPos: int, h: Header): (r: int)
    // For a consistent header: the bytes the header is written as, then the
    // compressed data, from the start.
    ensures Consistent(h) ==> r == startPos + |CreateHeader(h)| + h.compressedSize
    ensures r >= startPos + FULLHEADER_SIZE
  {
    startPos + HeaderSize(h.raw) + h.compressedSize
  }

  // ---------------------------------------------------------------------------
  // Encoding

  /** The encoded header: the fixed block, then the name, then the extra field
      (ZipLocalFileHeader::createHeader). */
  function CreateHeader(h: Header): (r: seq<byte>)
    ensures |r| == FULLHEADER_SIZE + |h.fileName| + |h.extraField|
    ensures r[..FULLHEADER_SIZE] == h.raw
    ensures ToChars(r[FULLHEADER_SIZE..FULLHEADER_SIZE + |h.fileName|]) == h.fileName
    ensures ToChars(r[FULLHEADER_SIZE + |h.fileName|..]) == h.extraField
  {
    h.raw + ToBytes(h.fileName) + ToBytes(h.extraField)
  }

  /** Decoding an encoded consistent header gives the header back, and stops right
      after it whatever follows. */
  lemma ParseCreateHeader(h: Header, rest: seq<byte>)
    requires Consistent(h)
    ensures ParseHeader(CreateHeader(h) + rest, 0, false)
         == Ok(Parsed(h, FULLHEADER_SIZE + |h.fileName| + |h.extraField|))
  {
    var enc := CreateHeader(h);
    var data := enc + rest;
    var n := |h.fileName|;
    var m := |h.extraField|;
    assert data[..FULLHEADER_SIZE] == h.raw;
    assert data[FULLHEADER_SIZE..FULLHEADER_SIZE + n] == enc[FULLHEADER_SIZE..FULLHEADER_SIZE + n];
    assert data[FULLHEADER_SIZE + n..FULLHEADER_SIZE + n + m] == enc[FULLHEADER_SIZE + n..];
    ParseLaidOut(data, h);
  }

  /** Bytes that start with a consistent header's fixed block, name and extra field
      decode to that header. */
  lemma ParseLaidOut(data: seq<byte>, h: Header)
    requires Consistent(h)
    requires FULLHEADER_SIZE + |h.fileName| + |h.extraField| <= |data|
    requires data[..FULLHEADER_SIZE] == h.raw
    requires ToChars(data[FULLHEADER_SIZE..FULLHEADER_SIZE + |h.fileName|]) == h.fileName
    requires ToChars(data[FULLHEADER_SIZE + |h.fileName|..FULLHEADER_SIZE + |h.fileName| + |h.extraField|]) == h.extraField
    ensures ParseHeader(data, 0, false) == Ok(Parsed(h, FULLHEADER_SIZE + |h.fileName| + |h.extraField|))
  {
    var n := |h.fileName|;
    var m := |h.extraField|;
    assert data[0..HEADER_SIZE] == h.raw[..HEADER_SIZE];
    assert FixedBlockAt(data, 0, false) == h.raw by {
      assert data[HEADER_SIZE..HEADER_SIZE + 26] == h.raw[HEADER_SIZE..];
      assert h.raw == h.raw[..HEADER_SIZE] + h.raw[HEADER_SIZE..];
    }
    ParseHeaderStages(data, 0, false);
    ParseNameAndExtraCases(data, FULLHEADER_SIZE, h.raw);
    EntryOfConsistent(h, data[FULLHEADER_SIZE..FULLHEADER_SIZE + n], data[FULLHEADER_SIZE + n..FULLHEADER_SIZE + n + m]);
  }

  /** A header with a checked fixed block, the given name and extra field, and CRC
      and sizes taken from the fixed block unless deferred, is the decoded entry. */
  lemma EntryOfFields(raw: RawHeader, name: seq<byte>, extra: seq<byte>, h: Header)
    requires ValidFixedBlock(raw)
    requires |name| == FileNameLength(raw) && |extra| == ExtraFieldLength(raw)
    requires h.raw == raw && h.fileName == ToChars(name) && h.extraField == ToChars(extra)
    requires SearchCRCAndSizesAfterData(raw) ==> h.crc32 == 0 && h.compressedSize == 0 && h.uncompressedSize == 0
    requires !SearchCRCAndSizesAfterData(raw) ==>
      && h.crc32 == CrcFromHeader(raw)
      && h.compressedSize == CompressedSizeFromHeader(raw)
      && h.uncompressedSize == UncompressedSizeFromHeader(raw)
    ensures h == EntryFromBlock(raw, name, extra)
  {
  }

  /** A consistent header is the entry its own fixed block, name and extra field decode to. */
  lemma EntryOfConsistent(h: Header, name: seq<byte>, extra: seq<byte>)
    requires Consistent(h)
    requires ToChars(name) == h.fileName && ToChars(extra) == h.extraField
    ensures EntryFromBlock(h.raw, name, extra) == h
  {
  }

  /** Encoding a decoded header reproduces the bytes it was decoded from; when the
      caller had already consumed the signature, the signature is put back in front. */
  lemma CreateParsedHeader(data: seq<byte>, pos: nat, assumeHeaderRead: bool)
    requires ParseHeader(data, pos, assumeHeaderRead).Ok?
    ensures var p := ParseHeader(data, pos, assumeHeaderRead).value;
      && pos <= p.next <= |data|
      && CreateHeader(p.header) == (if assumeHeaderRead then LOCAL_HEADER_MAGIC else []) + data[pos..p.next]
  {
    ParseHeaderLayout(data, pos, assumeHeaderRead);
    var p := ParseHeader(data, pos, assumeHeaderRead).value;
    EncodeLayout(data, pos, assumeHeaderRead, p.header, p.next);
  }

  /** A header laid out over `data` as decoding lays it out encodes back to those bytes. */
  lemma EncodeLayout(data: seq<byte>, pos: nat, assumeHeaderRead: bool, h: Header, next: nat)
    requires BlockStart(pos, assumeHeaderRead) + 26 <= |data|
    requires !assumeHeaderRead ==> data[pos..pos + HEADER_SIZE] == LOCAL_HEADER_MAGIC
    requires h.raw == FixedBlockAt(data, pos, assumeHeaderRead)
    requires var nameStart := BlockStart(pos, assumeHeaderRead) + 26;
      var nameEnd := nameStart + FileNameLength(h.raw);
      && next == nameEnd + ExtraFieldLength(h.raw) <= |data|
      && h.fileName == ToChars(data[nameStart..nameEnd])
      && h.extraField == ToChars(data[nameEnd..next])
    ensures pos <= next
    ensures CreateHeader(h) == (if assumeHeaderRead then LOCAL_HEADER_MAGIC else []) + data[pos..next]
  {
    var start := BlockStart(pos, assumeHeaderRead);
    var nameEnd := start + 26 + FileNameLength(h.raw);
    var prefix := if assumeHeaderRead then LOCAL_HEADER_MAGIC else [];
    var block := data[start..start + 26];
    var name := data[start + 26..nameEnd];
    var extra := data[nameEnd..next];
    assert ToBytes(h.fileName) == name by {
      ToBytesToChars(name);
    }
    assert ToBytes(h.extraField) == extra by {
      ToBytesToChars(extra);
    }
    assert prefix + data[pos..start] == LOCAL_HEADER_MAGIC;
    Reassemble(data, pos, start, nameEnd, next, prefix);
  }

  /** The signature, the fixed block, the name and the extra field laid end to end
      are the bytes from the header's start to its end. */
  lemma Reassemble(data: seq<byte>, pos: nat, start: nat, nameEnd: nat, next: nat, prefix: seq<byte>)
    requires pos <= start && start + 26 <= nameEnd <= next <= |data|
    requires prefix + data[pos..start] == LOCAL_HEADER_MAGIC
    ensures LOCAL_HEADER_MAGIC + data[start..start + 26] + data[start + 26..nameEnd] + data[nameEnd..next]
         == prefix + data[pos..next]
  {
    calc {
      LOCAL_HEADER_MAGIC + data[start..start + 26] + data[start + 26..nameEnd] + data[nameEnd..next];
      prefix + data[pos..start] + (data[start..start + 26] + (data[start + 26..nameEnd] + data[nameEnd..next]));
      { assert data[start + 26..next] == data[start + 26..nameEnd] + data[nameEnd..next]; }
      prefix + data[pos..start] + (data[start..start + 26] + data[start + 26..next]);
      { assert data[start..next] == data[start..start + 26] + data[start + 26..next]; }
      prefix + data[pos..start] + data[start..next];
      { assert data[pos..next] == data[pos..start] + data[start..next]; }
      prefix + data[pos..next];
    }
  }

  // ---------------------------------------------------------------------------
  // The write-side normaliser

  /** Poco::Path::makeDirectory on a '/'-separated name: ensures a trailing '/'. */
  function MakeDirectory(s: string): (r: string)
    ensures |r| > 0 && r[|r| - 1] == '/'
    ensures r == s || r == s + "/"
    ensures |s| > 0 && s[|s| - 1] == '/' ==> r == s
  {
    if |s| > 0 && s[|s| - 1] == '/' then s else s + "/"
  }

  /** Poco::Path::makeFile on a '/'-separated name: drops one trailing '/'. */
  function MakeFile(s: string): (r: string)
    ensures r == s || s == r + "/"
    ensures |s| > 0 && s[|s| - 1] == '/' <==> s == r + "/"
  {
    if |s| > 0 && s[|s| - 1] == '/' then s[..|s| - 1] else s
  }

  /** Poco::Path::isDirectory on a '/'-separated name: the last segment is empty. */
  predicate IsDirectoryPath(s: string)
  {
    |s| == 0 || s[|s| - 1] == '/'
  }

  /** The stored form of a name: made a directory or file name, then one leading
      '/' removed. */
  function NormalizedName(name: ByteString, isDirectory: bool): (r: ByteString)
    ensures var s := if isDirectory then MakeDirectory(name) else MakeFile(name);
      && (s == r || s == "/" + r)
      && (|s| > 0 && s[0] == '/' <==> s == "/" + r)
    ensures isDirectory && |r| > 0 ==> r[|r| - 1] == '/'
  {
    var s := if isDirectory then MakeDirectory(name) else MakeFile(name);
    if |s| > 0 && s[0] == '/' then s[1..] else s
  }

  /** The fixed block with the level written into bits 1 and 2 of the flags byte:
      flags = (flags & 0xF9) | (cl << 1). */
  function SetCompressionLevelBits(raw: RawHeader, cl: byte): (r: RawHeader)
    requires cl <= CL_SUPERFAST
    ensures CompressionLevel(r) == cl
    ensures r[GENERAL_PURPOSE_POS] % 2 == raw[GENERAL_PURPOSE_POS] % 2
    ensures r[GENERAL_PURPOSE_POS] / 8 == raw[GENERAL_PURPOSE_POS] / 8
    ensures forall i :: 0 <= i < FULLHEADER_SIZE && i != GENERAL_PURPOSE_POS ==> r[i] == raw[i]
  {
    var flags := raw[GENERAL_PURPOSE_POS];
    LevelBitsUpdate(flags, cl);
    raw[GENERAL_PURPOSE_POS := flags - 2 * ((flags / 2) % 4) + 2 * cl]
  }

  /** Replacing bits 1 and 2 of a byte by `cl` keeps it a byte, reads back `cl`,
      and keeps bit 0 and bits 3 to 7. */
  lemma LevelBitsUpdate(flags: byte, cl: nat)
    requires cl <= CL_SUPERFAST
    ensures var g := flags - 2 * ((flags / 2) % 4) + 2 * cl;
      && 0 <= g < 0x100
      && (g / 2) % 4 == cl && g % 2 == flags % 2 && g / 8 == flags / 8
  {
    var a, b, c := flags / 8, (flags / 2) % 4, flags % 2;
    assert flags == 8 * a + 2 * b + c;
    var g := flags - 2 * b + 2 * cl;
    assert g == 8 * a + 2 * cl + c;
    assert g / 2 == 4 * a + cl;
    assert g / 8 == a;
  }

  /** The fixed block with bit 3 of the flags byte cleared: flags & 0xF7. */
  function ClearDeferredBit(raw: RawHeader): (r: RawHeader)
    ensures !Bit3(r[GENERAL_PURPOSE_POS]) && !SearchCRCAndSizesAfterData(r)
    ensures r[GENERAL_PURPOSE_POS] % 8 == raw[GENERAL_PURPOSE_POS] % 8
    ensures r[GENERAL_PURPOSE_POS] / 16 == raw[GENERAL_PURPOSE_POS] / 16
    ensures forall i :: 0 <= i < FULLHEADER_SIZE && i != GENERAL_PURPOSE_POS ==> r[i] == raw[i]
  {
    var flags := raw[GENERAL_PURPOSE_POS];
    raw[GENERAL_PURPOSE_POS := if Bit3(flags) then flags - 8 else flags]
  }

  /** The fixed block with bit 0 (encryption) of the flags byte cleared: flags & 0xFE. */
  function ClearEncryptionBit(raw: RawHeader): (r: RawHeader)
    ensures r[GENERAL_PURPOSE_POS] % 2 == 0
    ensures r[GENERAL_PURPOSE_POS] / 2 == raw[GENERAL_PURPOSE_POS] / 2
    ensures forall i :: 0 <= i < FULLHEADER_SIZE && i != GENERAL_PURPOSE_POS ==> r[i] == raw[i]
  {
    var flags := raw[GENERAL_PURPOSE_POS];
    raw[GENERAL_PURPOSE_POS := flags - flags % 2]
  }

  /** setFileName: stores the normalised name and its length, truncated to 16 bits
      as the cast to UInt16 does; for a directory it also zeroes CRC and sizes and
      selects method store and level normal. */
  function WithFileName(h: Header, name: ByteString, isDirectory: bool): (r: Header)
    requires |name| > 0
    ensures r.fileName == NormalizedName(name, isDirectory)
    ensures FileNameLength(r.raw) == |r.fileName| % 0x1_0000
    ensures r.extraField == h.extraField
    ensures r.raw[..GENERAL_PURPOSE_POS] == h.raw[..GENERAL_PURPOSE_POS]
    ensures r.raw[GENERAL_PURPOSE_POS + 1] == h.raw[GENERAL_PURPOSE_POS + 1]
    ensures r.raw[LASTMODEFILETIME_POS..CRC32_POS] == h.raw[LASTMODEFILETIME_POS..CRC32_POS]
    ensures r.raw[EXTRAFIELD_POS..] == h.raw[EXTRAFIELD_POS..]
    ensures isDirectory ==>
      && r.crc32 == 0 && r.compressedSize == 0 && r.uncompressedSize == 0
      && CrcFromHeader(r.raw) == 0 && CompressedSizeFromHeader(r.raw) == 0 && UncompressedSizeFromHeader(r.raw) == 0
      && CompressionMethod(r.raw) == CM_STORE
      && CompressionLevel(r.raw) == CL_NORMAL
      && r.raw[GENERAL_PURPOSE_POS] % 2 == h.raw[GENERAL_PURPOSE_POS] % 2
      && r.raw[GENERAL_PURPOSE_POS] / 8 == h.raw[GENERAL_PURPOSE_POS] / 8
    ensures isDirectory && |r.fileName| > 0 ==> IsDirectory(r)
    ensures !isDirectory ==>
      && r.crc32 == h.crc32 && r.compressedSize == h.compressedSize && r.uncompressedSize == h.uncompressedSize
      && r.raw[..FILELENGTH_POS] == h.raw[..FILELENGTH_POS]
  {
    var h1 := if isDirectory then ZeroedForDirectory(h) else h;
    var n := NormalizedName(name, isDirectory);
    var raw: RawHeader := Set16(h1.raw, FILELENGTH_POS, |n| % 0x1_0000);
    assert raw[..FILELENGTH_POS] == h1.raw[..FILELENGTH_POS];
    assert raw[EXTRAFIELD_POS..] == h1.raw[EXTRAFIELD_POS..] == h.raw[EXTRAFIELD_POS..] by {
      assert h1.raw[FILELENGTH_POS..] == h.raw[FILELENGTH_POS..];
    }
    assert CrcFromHeader(raw) == CrcFromHeader(h1.raw);
    assert CompressedSizeFromHeader(raw) == CompressedSizeFromHeader(h1.raw);
    assert UncompressedSizeFromHeader(raw) == UncompressedSizeFromHeader(h1.raw);
    assert CompressionMethod(raw) == CompressionMethod(h1.raw) by {
      assert raw[COMPR_METHOD_POS] == h1.raw[COMPR_METHOD_POS];
      assert raw[COMPR_METHOD_POS + 1] == h1.raw[COMPR_METHOD_POS + 1];
    }
    h1.(fileName := n, raw := raw)
  }

  /** The directory part of setFileName: CRC and sizes 0 in the object and in the
      fixed block, method store, level normal. */
  function ZeroedForDirectory(h: Header): (r: Header)
    ensures r.fileName == h.fileName && r.extraField == h.extraField
    ensures r.crc32 == 0 && r.compressedSize == 0 && r.uncompressedSize == 0
    ensures CrcFromHeader(r.raw) == 0 && CompressedSizeFromHeader(r.raw) == 0 && UncompressedSizeFromHeader(r.raw) == 0
    ensures CompressionMethod(r.raw) == CM_STORE && CompressionLevel(r.raw) == CL_NORMAL
    ensures r.raw[GENERAL_PURPOSE_POS] % 2 == h.raw[GENERAL_PURPOSE_POS] % 2
    ensures r.raw[GENERAL_PURPOSE_POS] / 8 == h.raw[GENERAL_PURPOSE_POS] / 8
    ensures r.raw[..GENERAL_PURPOSE_POS] == h.raw[..GENERAL_PURPOSE_POS]
    ensures r.raw[GENERAL_PURPOSE_POS + 1] == h.raw[GENERAL_PURPOSE_POS + 1]
    ensures r.raw[LASTMODEFILETIME_POS..CRC32_POS] == h.raw[LASTMODEFILETIME_POS..CRC32_POS]
    ensures r.raw[FILELENGTH_POS..] == h.raw[FILELENGTH_POS..]
  {
    var raw := Set32(Set32(Set32(h.raw, CRC32_POS, 0), COMPRESSED_SIZE_POS, 0), UNCOMPRESSED_SIZE_POS, 0);
    h.(raw := SetCompressionLevelBits(Set16(raw, COMPR_METHOD_POS, CM_STORE), CL_NORMAL),
       crc32 := 0, compressedSize := 0, uncompressedSize := 0)
  }

  /** init: clears the deferred flag, stores the name (a directory when the path
      names one), requires version 2.0, and selects the given method and level for
      a file, method store otherwise. InitHeaderFlags states what init does to the
      flag bits. */
  function InitHeader(h: Header, path: ByteString, cm: uint16, cl: byte): (r: Header)
    requires |h.fileName| == 0 && |path| > 0
    requires cl <= CL_SUPERFAST
    ensures r.fileName == NormalizedName(path, IsDirectoryPath(path))
    ensures FileNameLength(r.raw) == |r.fileName| % 0x1_0000
    ensures !SearchCRCAndSizesAfterData(r.raw)
    ensures r.raw[VERSION_POS] == VERSION_2_0 && MajorVersion(r.raw) == 2
    ensures CompressionMethod(r.raw) == if IsDirectoryPath(path) then CM_STORE else cm
  {
    var isDir := IsDirectoryPath(path);
    var h1 := h.(raw := ClearDeferredBit(h.raw));
    var h2 := WithFileName(h1, path, isDir);
    var raw := SelectMethod(h2.raw[VERSION_POS := VERSION_2_0], isDir, cm, cl);
    assert raw[GENERAL_PURPOSE_POS] / 8 == h1.raw[GENERAL_PURPOSE_POS] / 8 by {
      assert h2.raw[GENERAL_PURPOSE_POS] / 8 == h1.raw[GENERAL_PURPOSE_POS] / 8;
    }
    assert Get16(raw, FILELENGTH_POS) == Get16(h2.raw, FILELENGTH_POS);
    h2.(raw := raw)
  }

  /** The flags after init: bit 3 is clear whatever the method, a file has the
      given level and a directory level normal, and encryption (bit 0), bits 4-7
      and the high byte are kept. */
  lemma InitHeaderFlags(h: Header, path: ByteString, cm: uint16, cl: byte)
    requires |h.fileName| == 0 && |path| > 0
    requires cl <= CL_SUPERFAST
    ensures var r := InitHeader(h, path, cm, cl);
      && !Bit3(r.raw[GENERAL_PURPOSE_POS])
      && r.raw[GENERAL_PURPOSE_POS] % 2 == h.raw[GENERAL_PURPOSE_POS] % 2
      && r.raw[GENERAL_PURPOSE_POS] / 16 == h.raw[GENERAL_PURPOSE_POS] / 16
      && r.raw[GENERAL_PURPOSE_POS + 1] == h.raw[GENERAL_PURPOSE_POS + 1]
      && (IsDirectoryPath(path) ==> CompressionLevel(r.raw) == CL_NORMAL)
      && (!IsDirectoryPath(path) ==> CompressionLevel(r.raw) == cl)
  {
    var isDir := IsDirectoryPath(path);
    var h1 := h.(raw := ClearDeferredBit(h.raw));
    var h2 := WithFileName(h1, path, isDir);
    var raw3 := h2.raw[VERSION_POS := VERSION_2_0];
    var r := InitHeader(h, path, cm, cl);
    assert r.raw == SelectMethod(raw3, isDir, cm, cl);
    if isDir {
      assert r.raw[GENERAL_PURPOSE_POS] == h2.raw[GENERAL_PURPOSE_POS];
    } else {
      assert h2.raw[GENERAL_PURPOSE_POS] == h1.raw[..FILELENGTH_POS][GENERAL_PURPOSE_POS];
    }
    FlagsAfterInit(h.raw[GENERAL_PURPOSE_POS], h1.raw[GENERAL_PURPOSE_POS], r.raw[GENERAL_PURPOSE_POS]);
  }

  /** Bit 3 cleared, then bit 0 and the bits above bit 2 kept: bit 3 stays clear,
      and bit 0 and bits 4-7 are the original ones. */
  lemma FlagsAfterInit(flags: byte, cleared: byte, r: byte)
    requires !Bit3(cleared) && cleared % 8 == flags % 8 && cleared / 16 == flags / 16
    requires r % 2 == cleared % 2 && r / 8 == cleared / 8
    ensures !Bit3(r) && r % 2 == flags % 2 && r / 16 == flags / 16
  {
    var high, low := flags / 16, flags % 8;
    assert flags == 16 * high + 8 * ((flags / 8) % 2) + low;
    assert cleared / 8 == 2 * high;
    assert cleared == 16 * high + low;
    assert r / 16 == high;
  }

  /** init on a directory path: CRC and sizes are 0 in the object and in the fixed
      block, and the entry is a directory entry unless its stored name is empty. */
  lemma InitHeaderDirectory(h: Header, path: ByteString, cm: uint16, cl: byte)
    requires |h.fileName| == 0 && |path| > 0
    requires cl <= CL_SUPERFAST
    ensures var r := InitHeader(h, path, cm, cl);
      IsDirectoryPath(path) ==>
        && r.crc32 == 0 && r.compressedSize == 0 && r.uncompressedSize == 0
        && CrcFromHeader(r.raw) == 0 && CompressedSizeFromHeader(r.raw) == 0 && UncompressedSizeFromHeader(r.raw) == 0
        && (|r.fileName| > 0 ==> IsDirectory(r))
  {
    if IsDirectoryPath(path) {
      var h1 := h.(raw := ClearDeferredBit(h.raw));
      var h2 := WithFileName(h1, path, true);
      var r := InitHeader(h, path, cm, cl);
      assert r.raw == SelectMethod(h2.raw[VERSION_POS := VERSION_2_0], true, cm, cl);
    }
  }

  /** What init leaves alone: the extra field, the signature, the host system, the
      modification time and the extra field length. */
  lemma InitHeaderKeeps(h: Header, path: ByteString, cm: uint16, cl: byte)
    requires |h.fileName| == 0 && |path| > 0
    requires cl <= CL_SUPERFAST
    ensures var r := InitHeader(h, path, cm, cl);
      && r.extraField == h.extraField
      && r.raw[..VERSION_POS] == h.raw[..VERSION_POS]
      && r.raw[HOST_SYSTEM_POS] == h.raw[HOST_SYSTEM_POS]
      && r.raw[LASTMODEFILETIME_POS..CRC32_POS] == h.raw[LASTMODEFILETIME_POS..CRC32_POS]
      && r.raw[EXTRAFIELD_POS..] == h.raw[EXTRAFIELD_POS..]
  {
    var isDir := IsDirectoryPath(path);
    var h1 := h.(raw := ClearDeferredBit(h.raw));
    var h2 := WithFileName(h1, path, isDir);
    var r := InitHeader(h, path, cm, cl);
    var raw3 := h2.raw[VERSION_POS := VERSION_2_0];
    assert r.raw == SelectMethod(raw3, isDir, cm, cl);
    KeptThroughInit(h, h1.raw, h2, raw3, r);
  }

  /** The bytes init's three steps leave alone, chained. */
  lemma KeptThroughInit(h: Header, cleared: RawHeader, named: Header, versioned: RawHeader, r: Header)
    requires forall i :: 0 <= i < FULLHEADER_SIZE && i != GENERAL_PURPOSE_POS ==> cleared[i] == h.raw[i]
    requires named.raw[..GENERAL_PURPOSE_POS] == cleared[..GENERAL_PURPOSE_POS]
    requires named.raw[LASTMODEFILETIME_POS..CRC32_POS] == cleared[LASTMODEFILETIME_POS..CRC32_POS]
    requires named.raw[EXTRAFIELD_POS..] == cleared[EXTRAFIELD_POS..]
    requires named.extraField == h.extraField && r.extraField == named.extraField
    requires versioned == named.raw[VERSION_POS := VERSION_2_0]
    requires forall i :: (0 <= i < FULLHEADER_SIZE && i != GENERAL_PURPOSE_POS && i != COMPR_METHOD_POS
                          && i != COMPR_METHOD_POS + 1) ==> r.raw[i] == versioned[i]
    ensures r.extraField == h.extraField
    ensures r.raw[..VERSION_POS] == h.raw[..VERSION_POS]
    ensures r.raw[HOST_SYSTEM_POS] == h.raw[HOST_SYSTEM_POS]
    ensures r.raw[LASTMODEFILETIME_POS..CRC32_POS] == h.raw[LASTMODEFILETIME_POS..CRC32_POS]
    ensures r.raw[EXTRAFIELD_POS..] == h.raw[EXTRAFIELD_POS..]
  {
    forall i | 0 <= i < GENERAL_PURPOSE_POS ensures named.raw[i] == cleared[i] {
      assert named.raw[..GENERAL_PURPOSE_POS][i] == cleared[..GENERAL_PURPOSE_POS][i];
    }
    forall i | LASTMODEFILETIME_POS <= i < CRC32_POS ensures named.raw[i] == cleared[i] {
      assert named.raw[LASTMODEFILETIME_POS..CRC32_POS][i - LASTMODEFILETIME_POS]
          == cleared[LASTMODEFILETIME_POS..CRC32_POS][i - LASTMODEFILETIME_POS];
    }
    forall i | EXTRAFIELD_POS <= i < FULLHEADER_SIZE ensures named.raw[i] == cleared[i] {
      assert named.raw[EXTRAFIELD_POS..][i - EXTRAFIELD_POS] == cleared[EXTRAFIELD_POS..][i - EXTRAFIELD_POS];
    }
  }

  /** For a file, init also leaves the CRC and sizes alone, in the object and in
      the fixed block. */
  lemma InitHeaderKeepsSizes(h: Header, path: ByteString, cm: uint16, cl: byte)
    requires |h.fileName| == 0 && |path| > 0
    requires cl <= CL_SUPERFAST
    ensures var r := InitHeader(h, path, cm, cl);
      !IsDirectoryPath(path) ==>
        && r.crc32 == h.crc32 && r.compressedSize == h.compressedSize && r.uncompressedSize == h.uncompressedSize
        && r.raw[CRC32_POS..FILELENGTH_POS] == h.raw[CRC32_POS..FILELENGTH_POS]
  {
    if !IsDirectoryPath(path) {
      var h1 := h.(raw := ClearDeferredBit(h.raw));
      var h2 := WithFileName(h1, path, false);
      var r := InitHeader(h, path, cm, cl);
      assert r.raw == SelectMethod(h2.raw[VERSION_POS := VERSION_2_0], false, cm, cl);
      assert r.raw[LASTMODEFILETIME_POS..] == h2.raw[LASTMODEFILETIME_POS..];
      assert h1.raw[LASTMODEFILETIME_POS..] == h.raw[LASTMODEFILETIME_POS..];
    }
  }

  /** The last step of init: method and level for a file, method store otherwise. */
  function SelectMethod(raw: RawHeader, isDirectory: bool, cm: uint16, cl: byte): (r: RawHeader)
    requires cl <= CL_SUPERFAST
    ensures CompressionMethod(r) == if isDirectory then CM_STORE else cm
    ensures !isDirectory ==> CompressionLevel(r) == cl
    ensures isDirectory ==> r[GENERAL_PURPOSE_POS] == raw[GENERAL_PURPOSE_POS]
    ensures r[GENERAL_PURPOSE_POS] % 2 == raw[GENERAL_PURPOSE_POS] % 2
    ensures r[GENERAL_PURPOSE_POS] / 8 == raw[GENERAL_PURPOSE_POS] / 8
    ensures forall i :: (0 <= i < FULLHEADER_SIZE && i != GENERAL_PURPOSE_POS && i != COMPR_METHOD_POS
                         && i != COMPR_METHOD_POS + 1) ==> r[i] == raw[i]
  {
    if !isDirectory then
      SetCompressionLevelBits(Set16(raw, COMPR_METHOD_POS, cm), cl)
    else
      Set16(raw, COMPR_METHOD_POS, CM_STORE)
  }

  /** The fixed block the writing constructor starts from: the signature, zeros,
      the host system, encryption off, no extra field, and the DOS time and date. */
  function BlankHeader(hs: byte, dosTime: uint16, dosDate: uint16): (h: Header)
    ensures h.raw[..HEADER_SIZE] == LOCAL_HEADER_MAGIC
    ensures h.raw[VERSION_POS] == 0 && HostSystem(h.raw) == hs
    ensures Flags(h.raw) == 0 && CompressionMethod(h.raw) == 0
    ensures Get16(h.raw, LASTMODEFILETIME_POS) == dosTime && Get16(h.raw, LASTMODEFILEDATE_POS) == dosDate
    ensures FileNameLength(h.raw) == 0 && ExtraFieldLength(h.raw) == 0
    ensures CrcFromHeader(h.raw) == 0 && CompressedSizeFromHeader(h.raw) == 0 && UncompressedSizeFromHeader(h.raw) == 0
    ensures h.fileName == [] && h.extraField == []
    ensures h.crc32 == 0 && h.compressedSize == 0 && h.uncompressedSize == 0
  {
    var zeros: RawHeader := LOCAL_HEADER_MAGIC + seq(FULLHEADER_SIZE - HEADER_SIZE, i => 0);
    var raw := ClearEncryptionBit(zeros[HOST_SYSTEM_POS := hs]);
    assert forall i :: HEADER_SIZE <= i < FULLHEADER_SIZE && i != HOST_SYSTEM_POS ==> raw[i] == 0;
    var raw' := Set16(Set16(Set16(raw, EXTRAFIELD_POS, 0), LASTMODEFILETIME_POS, dosTime), LASTMODEFILEDATE_POS, dosDate);
    assert forall i :: (HEADER_SIZE <= i < EXTRAFIELD_POS && i != HOST_SYSTEM_POS
                        && (i < LASTMODEFILETIME_POS || CRC32_POS <= i)) ==> raw'[i] == 0;
    Header(raw', [], [], 0, 0, 0)
  }

  /** The header the writing constructor builds for `path`: a recognised host and
      method, and a stored name that fits the 16-bit length field, make it consistent. */
  function NewHeader(path: ByteString, dosTime: uint16, dosDate: uint16, cm: uint16, cl: byte, hs: byte): (h: Header)
    requires |path| > 0 && cl <= CL_SUPERFAST
    ensures h.fileName == NormalizedName(path, IsDirectoryPath(path)) && h.extraField == []
    ensures cm < CM_UNUSED && hs < HS_UNUSED && |h.fileName| < 0x1_0000 ==> Consistent(h)
  {
    var b := BlankHeader(hs, dosTime, dosDate);
    var h := InitHeader(b, path, cm, cl);
    InitHeaderKeeps(b, path, cm, cl);
    InitHeaderKeepsSizes(b, path, cm, cl);
    InitHeaderDirectory(b, path, cm, cl);
    InitOfBlankConsistent(b, h, IsDirectoryPath(path), cm, hs);
    h
  }

  /** The writing constructor's header has encryption off and its sizes not
      deferred: the blank flags are 0, and init keeps bit 0 and clears bit 3. */
  lemma NewHeaderFlags(path: ByteString, dosTime: uint16, dosDate: uint16, cm: uint16, cl: byte, hs: byte)
    requires |path| > 0 && cl <= CL_SUPERFAST
    ensures var h := NewHeader(path, dosTime, dosDate, cm, cl, hs);
      h.raw[GENERAL_PURPOSE_POS] % 2 == 0 && !Bit3(h.raw[GENERAL_PURPOSE_POS])
  {
    var b := BlankHeader(hs, dosTime, dosDate);
    assert b.raw[GENERAL_PURPOSE_POS] == 0 by {
      assert Flags(b.raw) == b.raw[GENERAL_PURPOSE_POS] + 0x100 * b.raw[GENERAL_PURPOSE_POS + 1];
    }
    InitHeaderFlags(b, path, cm, cl);
  }

  /** The facts InitHeader states about a blank header, put together. */
  lemma InitOfBlankConsistent(b: Header, h: Header, isDirectory: bool, cm: uint16, hs: byte)
    requires b.raw[..HEADER_SIZE] == LOCAL_HEADER_MAGIC && HostSystem(b.raw) == hs
    requires ExtraFieldLength(b.raw) == 0 && b.extraField == []
    requires CrcFromHeader(b.raw) == 0 && CompressedSizeFromHeader(b.raw) == 0 && UncompressedSizeFromHeader(b.raw) == 0
    requires b.crc32 == 0 && b.compressedSize == 0 && b.uncompressedSize == 0
    requires FileNameLength(h.raw) == |h.fileName| % 0x1_0000
    requires !SearchCRCAndSizesAfterData(h.raw)
    requires MajorVersion(h.raw) == 2
    requires CompressionMethod(h.raw) == if isDirectory then CM_STORE else cm
    requires h.extraField == b.extraField
    requires h.raw[..VERSION_POS] == b.raw[..VERSION_POS]
    requires h.raw[HOST_SYSTEM_POS] == b.raw[HOST_SYSTEM_POS]
    requires h.raw[EXTRAFIELD_POS..] == b.raw[EXTRAFIELD_POS..]
    requires isDirectory ==> h.crc32 == 0 && h.compressedSize == 0 && h.uncompressedSize == 0
    requires isDirectory ==>
      CrcFromHeader(h.raw) == 0 && CompressedSizeFromHeader(h.raw) == 0 && UncompressedSizeFromHeader(h.raw) == 0
    requires !isDirectory ==>
      && h.crc32 == b.crc32 && h.compressedSize == b.compressedSize && h.uncompressedSize == b.uncompressedSize
      && h.raw[CRC32_POS..FILELENGTH_POS] == b.raw[CRC32_POS..FILELENGTH_POS]
    ensures cm < CM_UNUSED && hs < HS_UNUSED && |h.fileName| < 0x1_0000 ==> Consistent(h)
  {
    assert h.raw[..HEADER_SIZE] == b.raw[..HEADER_SIZE] by {
      assert h.raw[..VERSION_POS] == b.raw[..VERSION_POS];
    }
    assert ExtraFieldLength(h.raw) == 0 by {
      assert h.raw[EXTRAFIELD_POS] == b.raw[EXTRAFIELD_POS] && h.raw[EXTRAFIELD_POS + 1] == b.raw[EXTRAFIELD_POS + 1];
    }
    if !isDirectory {
      assert CrcFromHeader(h.raw) == CrcFromHeader(b.raw);
      assert CompressedSizeFromHeader(h.raw) == CompressedSizeFromHeader(b.raw);
      assert UncompressedSizeFromHeader(h.raw) == UncompressedSizeFromHeader(b.raw);
    }
  }
}
