// Constants shared by the Zip library (Poco::Zip::ZipCommon).
// ZipCommon.h is not part of this model; the values below are those of the
// PKWARE APPNOTE.TXT (sections 4.3.7, 4.4.2 and 4.4.5) that the enumerations follow.
module ZipCommon {
  import opened ZipUtil

  /** Length of an entry signature. */
  const HEADER_SIZE: nat := 4

  /** Signature of a local file header, "PK\x03\x04" (APPNOTE section 4.3.7). */
  const LOCAL_HEADER_MAGIC: seq<byte> := [0x50, 0x4B, 0x03, 0x04]

  // Host systems (upper byte of "version made by", APPNOTE section 4.4.2).
  const HS_FAT: byte := 0
  const HS_VMS: byte := 2
  const HS_UNIX: byte := 3
  /** First value past the recognised host systems. */
  const HS_UNUSED: byte := 18

  // Compression methods (APPNOTE section 4.4.5).
  const CM_STORE: uint16 := 0
  const CM_DEFLATE: uint16 := 8
  /** First value past the recognised compression methods. */
  const CM_UNUSED: uint16 := 11

  // Compression levels, stored in bits 1 and 2 of the general purpose flags.
  const CL_NORMAL: byte := 0
  const CL_SUPERFAST: byte := 3

  /** Substring that makes an entry name illegal to extract. */
  const ILLEGAL_PATH: string := ".."
}
