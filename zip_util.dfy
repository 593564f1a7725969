// Little-endian field access on raw header bytes (Poco::Zip::ZipUtil), and the
// byte/character view of std::string that file names and extra fields use.
// Bytes and the 16- and 32-bit fields are integers in range; the bit masks the
// library applies to flag bytes are written out as arithmetic on those integers.
module ZipUtil {

  type byte = x: int | 0 <= x < 0x100
  type uint16 = x: int | 0 <= x < 0x1_0000
  type uint32 = x: int | 0 <= x < 0x1_0000_0000

  /** 16-bit little-endian value at `pos` (ZipUtil::get16BitValue). */
  function Get16(s: seq<byte>, pos: nat): uint16
    requires pos + 2 <= |s|
  {
    s[pos] as int + 0x100 * s[pos + 1] as int
  }

  /** 32-bit little-endian value at `pos` (ZipUtil::get32BitValue). */
  function Get32(s: seq<byte>, pos: nat): uint32
    requires pos + 4 <= |s|
  {
    Get16(s, pos) + 0x1_0000 * Get16(s, pos + 2)
  }

  /** Writes `v` little-endian at `pos` (ZipUtil::set16BitValue): reading it back
      gives `v`, and every other byte is left alone. */
  function Set16(s: seq<byte>, pos: nat, v: uint16): (r: seq<byte>)
    requires pos + 2 <= |s|
    ensures |r| == |s|
    ensures Get16(r, pos) == v
    ensures forall i :: 0 <= i < |s| && (i < pos || pos + 2 <= i) ==> r[i] == s[i]
  {
    s[pos := v % 0x100][pos + 1 := v / 0x100]
  }

  /** Writes `v` little-endian at `pos` (ZipUtil::set32BitValue): reading it back
      gives `v`, and every other byte is left alone. */
  function Set32(s: seq<byte>, pos: nat, v: uint32): (r: seq<byte>)
    requires pos + 4 <= |s|
    ensures |r| == |s|
    ensures Get32(r, pos) == v
    ensures forall i :: 0 <= i < |s| && (i < pos || pos + 4 <= i) ==> r[i] == s[i]
  {
    var lo := Set16(s, pos, v % 0x1_0000);
    Set16(lo, pos + 2, v / 0x1_0000)
  }

  /** A std::string holds bytes: every character of the model is below 256. */
  predicate IsByteString(s: string)
  {
    forall i :: 0 <= i < |s| ==> s[i] as int < 0x100
  }

  type ByteString = s: string | IsByteString(s) witness ""

  /** The string made of the bytes `b`, one character per byte. */
  function ToChars(b: seq<byte>): (s: ByteString)
    ensures |s| == |b|
    ensures forall i :: 0 <= i < |b| ==> s[i] as int == b[i]
  {
    seq(|b|, i requires 0 <= i < |b| => b[i] as char)
  }

  /** The bytes of a string; the inverse of ToChars. */
  function ToBytes(s: ByteString): (b: seq<byte>)
    ensures |b| == |s|
    ensures forall i :: 0 <= i < |s| ==> b[i] == s[i] as int
    ensures ToChars(b) == s
  {
    var b := seq(|s|, i requires 0 <= i < |s| => s[i] as int);
    assert forall i :: 0 <= i < |s| ==> ToChars(b)[i] == s[i];
    b
  }

  /** ToBytes undoes ToChars, so a name read from bytes is written back unchanged. */
  lemma ToBytesToChars(b: seq<byte>)
    ensures ToBytes(ToChars(b)) == b
  {
    var s := ToChars(b);
    assert forall i :: 0 <= i < |b| ==> ToBytes(s)[i] == b[i] by {
      forall i | 0 <= i < |b| ensures ToBytes(s)[i] == b[i] {
        assert ToChars(ToBytes(s))[i] == s[i];
      }
    }
  }
}
