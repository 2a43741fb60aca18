/** Octets, one-byte characters, and the big-endian layouts of 16- and 32-bit integers. */
module Bytes {

  type byte = b: int | 0 <= b < 0x100

  /**
   * A string, as the sequence of its character codes. The names and address
   * strings the codec handles are ASCII, for which the UTF-8 encoding that
   * `writeString` and `readString` use is one byte per character: the code.
   */
  type Text = seq<byte>

  const Two16: int := 0x1_0000
  const Two31: int := 0x8000_0000
  const Two32: int := 0x1_0000_0000

  /** Big-endian 16-bit layout, as written by `writeUInt16BE`. */
  function BE16(v: int): (r: seq<byte>)
    requires 0 <= v < Two16
    ensures |r| == 2 && r[0] == v / 0x100 && r[1] == v % 0x100
  {
    [v / 0x100, v % 0x100]
  }

  /** The value `readUInt16BE` returns for two bytes. */
  function FromBE16(s: seq<byte>): (v: int)
    requires |s| == 2
    ensures 0 <= v < Two16
  {
    s[0] as int * 0x100 + s[1]
  }

  /** Big-endian 32-bit layout, as written by `writeUInt32BE`. */
  function BE32(v: int): (r: seq<byte>)
    requires 0 <= v < Two32
    ensures |r| == 4
  {
    [v / 0x100_0000, (v / 0x1_0000) % 0x100, (v / 0x100) % 0x100, v % 0x100]
  }

  /** The value `readUInt32BE` returns for four bytes. */
  function FromBE32(s: seq<byte>): (v: int)
    requires |s| == 4
    ensures 0 <= v < Two32
  {
    ((s[0] as int * 0x100 + s[1]) * 0x100 + s[2]) * 0x100 + s[3]
  }

  /** Two's-complement 32-bit layout, as written by `writeInt32BE`. */
  function Int32BE(v: int): (r: seq<byte>)
    requires -Two31 <= v < Two31
    ensures |r| == 4
  {
    BE32(if v < 0 then v + Two32 else v)
  }

  /** The value `readInt32BE` returns for four bytes. */
  function FromInt32BE(s: seq<byte>): (v: int)
    requires |s| == 4
    ensures -Two31 <= v < Two31
  {
    var u := FromBE32(s);
    if u >= Two31 then u - Two32 else u
  }

  lemma BE16RoundTrip(v: int)
    requires 0 <= v < Two16
    ensures FromBE16(BE16(v)) == v
  {
  }

  lemma {:induction false} BE32RoundTrip(v: int)
    requires 0 <= v < Two32
    ensures FromBE32(BE32(v)) == v
  {
    var s := BE32(v);
    assert s[0] as int * 0x100 + s[1] == v / 0x1_0000;
    assert (s[0] as int * 0x100 + s[1]) * 0x100 + s[2] == v / 0x100;
  }

  lemma {:induction false} Int32RoundTrip(v: int)
    requires -Two31 <= v < Two31
    ensures FromInt32BE(Int32BE(v)) == v
  {
    BE32RoundTrip(if v < 0 then v + Two32 else v);
  }
}
