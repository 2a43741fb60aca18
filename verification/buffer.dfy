/**
 * The byte cursors of the codec: a writer that appends to a growable byte array
 * and a reader that walks a byte array, checking bounds before every read.
 */
module Buffer {
  import opened Wrappers
  import opened Bytes

  /** Every writer starts with this many bytes, whatever capacity it is asked for. */
  const InitialCapacity: nat := 256

  function Max(a: int, b: int): int { if a >= b then a else b }

  function Min(a: int, b: int): int { if a <= b then a else b }

  function Zeros(n: nat): (z: seq<byte>)
    ensures |z| == n && forall i :: 0 <= i < n ==> z[i] == 0
  {
    seq(n, _ => 0)
  }

  /** The capacity after `_ensureCapacity(diff)` on a buffer of `capacity` bytes holding `length`. */
  function GrownCapacity(capacity: nat, length: nat, diff: nat): nat
  {
    if capacity >= diff then capacity else Max(length + diff, 2 * capacity)
  }

  /**
   * Whether a write of `n` bytes at offset `length` stays inside the buffer once
   * `_ensureCapacity(n)` has run. Because the capacity is compared with `n` and
   * not with `length + n`, a write past the end fits only when `n` alone
   * exceeds the capacity.
   */
  function WriteFits(capacity: nat, length: nat, n: nat): (ok: bool)
    ensures ok <==> length + n <= capacity || capacity < n
  {
    length + n <= GrownCapacity(capacity, length, n)
  }

  /** `s` with the bytes at `pos .. pos + |data|` replaced by `data`, one byte after the other. */
  function Splice(s: seq<byte>, pos: nat, data: seq<byte>): (r: seq<byte>)
    requires pos + |data| <= |s|
    ensures |r| == |s|
    decreases |data|
  {
    if data == [] then s else Splice(s[pos := data[0]], pos + 1, data[1..])
  }

  /** The splice keeps the bytes of `s` before and after `data`. */
  lemma {:induction false} SpliceIs(s: seq<byte>, pos: nat, data: seq<byte>)
    requires pos + |data| <= |s|
    ensures Splice(s, pos, data) == s[..pos] + data + s[pos + |data|..]
    decreases |data|
  {
    if data != [] {
      var t := s[pos := data[0]];
      SpliceIs(t, pos + 1, data[1..]);
      assert t[..pos + 1] == s[..pos] + [data[0]];
      assert t[pos + 1 + |data[1..]|..] == s[pos + |data|..];
      assert [data[0]] + data[1..] == data;
      assert s[..pos] + [data[0]] + data[1..] == s[..pos] + data;
    }
  }

  /**
   * A successful append: the writer went from holding `n0` bytes in `b0` to
   * holding `n1` bytes in `b1`, `data` now sits at `n0 .. n1`, and every byte
   * that was inside the old buffer below `n0` is kept.
   */
  ghost predicate Appends(b0: seq<byte>, n0: nat, b1: seq<byte>, n1: nat, data: seq<byte>)
  {
    n1 == n0 + |data| && n1 <= |b1| && b1[n0..n1] == data &&
    Min(n0, |b0|) <= |b1| && b1[..Min(n0, |b0|)] == b0[..Min(n0, |b0|)]
  }

  /** Two appends in a row append the concatenation. */
  lemma {:induction false} AppendsTrans(b0: seq<byte>, n0: nat, b1: seq<byte>, n1: nat, b2: seq<byte>, n2: nat,
                                        d1: seq<byte>, d2: seq<byte>)
    requires Appends(b0, n0, b1, n1, d1) && Appends(b1, n1, b2, n2, d2)
    ensures Appends(b0, n0, b2, n2, d1 + d2)
  {
    assert Min(n1, |b1|) == n1;
    assert b2[..n1] == b1[..n1];
    assert b2[n0..n1] == b2[..n1][n0..] == b1[..n1][n0..] == d1;
    assert b2[n0..n2] == b2[n0..n1] + b2[n1..n2];
    assert b2[..Min(n0, |b0|)] == b2[..n1][..Min(n0, |b0|)];
  }

  /** When the writer held exactly its old contents, an append extends them by `data`. */
  lemma {:induction false} AppendsContents(b0: seq<byte>, n0: nat, b1: seq<byte>, n1: nat, data: seq<byte>)
    requires n0 <= |b0| && Appends(b0, n0, b1, n1, data)
    ensures b1[..n1] == b0[..n0] + data
  {
    assert b1[..n1] == b1[..n0] + b1[n0..n1];
  }

  // ---------------------------------------------------------------------------
  // What each read returns at an offset of a byte string (None: out of bounds)

  /** `readBuffer(n)` at `pos`. */
  function BytesAt(data: seq<byte>, pos: nat, n: nat): (r: Option<seq<byte>>)
    ensures r.Some? <==> pos + n <= |data|
    ensures r.Some? ==> |r.value| == n && r.value == data[pos..pos + n]
  {
    if pos + n <= |data| then Some(data[pos..pos + n]) else None
  }

  /** `readUInt8()` at `pos`. */
  function U8At(data: seq<byte>, pos: nat): Option<byte>
  {
    if pos + 1 <= |data| then Some(data[pos]) else None
  }

  /** `readUInt16BE()` at `pos`. */
  function U16At(data: seq<byte>, pos: nat): Option<int>
  {
    if pos + 2 <= |data| then Some(FromBE16(data[pos..pos + 2])) else None
  }

  /** `readUInt32BE()` at `pos`. */
  function U32At(data: seq<byte>, pos: nat): Option<int>
  {
    if pos + 4 <= |data| then Some(FromBE32(data[pos..pos + 4])) else None
  }

  /** `readInt32BE()` at `pos`. */
  function I32At(data: seq<byte>, pos: nat): Option<int>
  {
    if pos + 4 <= |data| then Some(FromInt32BE(data[pos..pos + 4])) else None
  }

  lemma {:induction false} SliceOfConcat(pre: seq<byte>, x: seq<byte>, rest: seq<byte>)
    ensures (pre + x + rest)[|pre|..|pre| + |x|] == x
  {
    assert (pre + x + rest)[|pre|..|pre| + |x|] == (pre + x)[|pre|..];
  }

  /** Reading 16 bits where `writeUInt16BE(v)` wrote them returns `v`. */
  lemma {:induction false} ReadBackU16(pre: seq<byte>, v: int, rest: seq<byte>)
    requires 0 <= v < Two16
    ensures U16At(pre + BE16(v) + rest, |pre|) == Some(v)
  {
    SliceOfConcat(pre, BE16(v), rest);
    BE16RoundTrip(v);
  }

  /** Reading 32 unsigned bits where `writeUInt32BE(v)` wrote them returns `v`. */
  lemma {:induction false} ReadBackU32(pre: seq<byte>, v: int, rest: seq<byte>)
    requires 0 <= v < Two32
    ensures U32At(pre + BE32(v) + rest, |pre|) == Some(v)
  {
    SliceOfConcat(pre, BE32(v), rest);
    BE32RoundTrip(v);
  }

  /** Reading 32 signed bits where `writeInt32BE(v)` wrote them returns `v`. */
  lemma {:induction false} ReadBackI32(pre: seq<byte>, v: int, rest: seq<byte>)
    requires -Two31 <= v < Two31
    ensures I32At(pre + Int32BE(v) + rest, |pre|) == Some(v)
  {
    SliceOfConcat(pre, Int32BE(v), rest);
    Int32RoundTrip(v);
  }

  /** Reading `|x|` bytes where `writeBuffer(x)` wrote them returns `x`. */
  lemma {:induction false} ReadBackBytes(pre: seq<byte>, x: seq<byte>, rest: seq<byte>)
    ensures BytesAt(pre + x + rest, |pre|, |x|) == Some(x)
  {
    SliceOfConcat(pre, x, rest);
  }

  /** `data` holds `seg` at offset `off`. */
  ghost predicate HoldsAt(data: seq<byte>, off: nat, seg: seq<byte>)
  {
    off + |seg| <= |data| && data[off..off + |seg|] == seg
  }

  /** A concatenation held at `off` is its first part at `off` and its second at `mid`, right after the first. */
  lemma {:induction false} HoldsAtSplit(data: seq<byte>, off: nat, a: seq<byte>, b: seq<byte>, mid: nat)
    requires HoldsAt(data, off, a + b) && mid == off + |a|
    ensures HoldsAt(data, off, a) && HoldsAt(data, mid, b)
  {
    assert data[off..off + |a|] == (a + b)[..|a|];
    assert data[off + |a|..off + |a| + |b|] == (a + b)[|a|..];
  }

  /** `readUInt16BE` where `writeUInt16BE(v)` put its bytes returns `v`. */
  lemma {:induction false} U16Holds(data: seq<byte>, off: nat, v: int)
    requires 0 <= v < Two16 && HoldsAt(data, off, BE16(v))
    ensures U16At(data, off) == Some(v)
  {
    BE16RoundTrip(v);
  }

  /** `readUInt32BE` where `writeUInt32BE(v)` put its bytes returns `v`. */
  lemma {:induction false} U32Holds(data: seq<byte>, off: nat, v: int)
    requires 0 <= v < Two32 && HoldsAt(data, off, BE32(v))
    ensures U32At(data, off) == Some(v)
  {
    BE32RoundTrip(v);
  }

  /** `readInt32BE` where `writeInt32BE(v)` put its bytes returns `v`. */
  lemma {:induction false} I32Holds(data: seq<byte>, off: nat, v: int)
    requires -Two31 <= v < Two31 && HoldsAt(data, off, Int32BE(v))
    ensures I32At(data, off) == Some(v)
  {
    Int32RoundTrip(v);
  }

  // ---------------------------------------------------------------------------

  class BufferWriter {
    var buf: array<byte>
    var length: nat

    /** The capacity never drops below the initial 256 bytes. */
    ghost predicate Valid()
      reads this
    {
      buf.Length >= InitialCapacity
    }

    /** The `capacity` argument is ignored: every writer starts with 256 zero bytes. */
    constructor (capacity: nat)
      ensures Valid() && fresh(buf)
      ensures buf.Length == InitialCapacity && length == 0
      ensures buf[..] == Zeros(InitialCapacity)
    {
      buf := new byte[InitialCapacity](_ => 0);
      length := 0;
    }

    /**
     * `_ensureCapacity(diff)`: reallocates only when the capacity is below `diff`,
     * to `max(length + diff, 2 * capacity)` bytes, keeping the old bytes.
     */
    method EnsureCapacity(diff: nat)
      requires Valid()
      modifies this
      ensures Valid() && length == old(length)
      ensures buf.Length == GrownCapacity(old(buf.Length), length, diff)
      ensures buf[..] == old(buf[..]) + Zeros(buf.Length - old(buf.Length))
      ensures old(buf.Length) >= diff ==> buf == old(buf)
      ensures buf != old(buf) ==> fresh(buf)
    {
      var newLength := length + diff;
      if buf.Length >= diff {
        return;
      }
      var newCapacity := Max(newLength, buf.Length * 2);
      var grown := new byte[newCapacity](_ => 0);
      forall k | 0 <= k < buf.Length {
        grown[k] := buf[k];
      }
      assert grown[..] == buf[..] + Zeros(newCapacity - buf.Length);
      buf := grown;
    }

    /** Copies `data` into the buffer at offset `length` (the inside of `Buffer.copy` and the `write*` calls). */
    method Store(data: seq<byte>)
      requires length + |data| <= buf.Length
      modifies buf
      ensures buf[..] == Splice(old(buf[..]), length, data)
      ensures buf[..] == old(buf[..])[..length] + data + old(buf[..])[length + |data|..]
    {
      forall k | 0 <= k < |data| {
        buf[length + k] := data[k];
      }
      SpliceIs(old(buf[..]), length, data);
    }

    /** A fixed-width write of the bytes `data` that fails when they do not fit; the capacity is never grown. */
    method WriteFixed(data: seq<byte>) returns (ok: bool)
      requires Valid() && 1 <= |data| <= 4
      modifies this, buf
      ensures Valid() && buf == old(buf)
      ensures ok <==> old(length) + |data| <= buf.Length
      ensures ok ==> length == old(length) + |data| && buf[..] == Splice(old(buf[..]), old(length), data)
      ensures ok ==> Appends(old(buf[..]), old(length), buf[..], length, data)
      ensures !ok ==> length == old(length) && buf[..] == old(buf[..])
    {
      EnsureCapacity(|data|);
      if length + |data| > buf.Length {
        return false;
      }
      Store(data);
      length := length + |data|;
      ok := true;
      assert buf[old(length)..length] == data;
    }

    /** `writeUInt8(value)`: fails outside 0..255 or past the end. */
    method WriteUInt8(value: int) returns (ok: bool)
      requires Valid()
      modifies this, buf
      ensures Valid() && buf == old(buf)
      ensures ok <==> 0 <= value < 0x100 && old(length) + 1 <= buf.Length
      ensures ok ==> length == old(length) + 1 && buf[..] == Splice(old(buf[..]), old(length), [value])
      ensures ok ==> Appends(old(buf[..]), old(length), buf[..], length, [value])
      ensures !ok ==> length == old(length) && buf[..] == old(buf[..])
    {
      if !(0 <= value < 0x100) {
        return false;
      }
      ok := WriteFixed([value]);
    }

    /** `writeUInt16BE(value)`: big-endian; fails outside 0..65535 or past the end. */
    method WriteUInt16BE(value: int) returns (ok: bool)
      requires Valid()
      modifies this, buf
      ensures Valid() && buf == old(buf)
      ensures ok <==> 0 <= value < Two16 && old(length) + 2 <= buf.Length
      ensures ok ==> length == old(length) + 2 && buf[..] == Splice(old(buf[..]), old(length), BE16(value))
      ensures ok ==> Appends(old(buf[..]), old(length), buf[..], length, BE16(value))
      ensures !ok ==> length == old(length) && buf[..] == old(buf[..])
    {
      if !(0 <= value < Two16) {
        return false;
      }
      ok := WriteFixed(BE16(value));
    }

    /** `writeInt32BE(value)`: two's complement, big-endian; fails outside the signed 32-bit range or past the end. */
    method WriteInt32BE(value: int) returns (ok: bool)
      requires Valid()
      modifies this, buf
      ensures Valid() && buf == old(buf)
      ensures ok <==> -Two31 <= value < Two31 && old(length) + 4 <= buf.Length
      ensures ok ==> length == old(length) + 4 && buf[..] == Splice(old(buf[..]), old(length), Int32BE(value))
      ensures ok ==> Appends(old(buf[..]), old(length), buf[..], length, Int32BE(value))
      ensures !ok ==> length == old(length) && buf[..] == old(buf[..])
    {
      if !(-Two31 <= value < Two31) {
        return false;
      }
      ok := WriteFixed(Int32BE(value));
    }

    /** `writeUInt32BE(value)`: big-endian; fails outside 0..2^32-1 or past the end. */
    method WriteUInt32BE(value: int) returns (ok: bool)
      requires Valid()
      modifies this, buf
      ensures Valid() && buf == old(buf)
      ensures ok <==> 0 <= value < Two32 && old(length) + 4 <= buf.Length
      ensures ok ==> length == old(length) + 4 && buf[..] == Splice(old(buf[..]), old(length), BE32(value))
      ensures ok ==> Appends(old(buf[..]), old(length), buf[..], length, BE32(value))
      ensures !ok ==> length == old(length) && buf[..] == old(buf[..])
    {
      if !(0 <= value < Two32) {
        return false;
      }
      ok := WriteFixed(BE32(value));
    }

    /**
     * `writeBuffer(data)`: grows the buffer first when `|data|` exceeds the
     * capacity, then copies `data` at offset `length`.
     */
    method WriteBuffer(data: seq<byte>) returns (ok: bool)
      requires Valid()
      modifies this, buf
      ensures Valid()
      ensures ok <==> WriteFits(old(buf.Length), old(length), |data|)
      ensures ok ==> length == old(length) + |data|
      ensures ok ==> buf.Length == GrownCapacity(old(buf.Length), old(length), |data|)
      ensures ok ==> buf[..] == Splice(old(buf[..]) + Zeros(buf.Length - old(buf.Length)), old(length), data)
      ensures ok ==> Appends(old(buf[..]), old(length), buf[..], length, data)
      ensures !ok ==> buf == old(buf) && length == old(length) && buf[..] == old(buf[..])
      ensures buf != old(buf) ==> fresh(buf)
    {
      EnsureCapacity(|data|);
      if length + |data| > buf.Length {
        return false;
      }
      ghost var grown := buf[..];
      Store(data);
      length := length + |data|;
      ok := true;
      assert buf[old(length)..length] == data;
      assert buf[..Min(old(length), old(buf.Length))] == grown[..Min(old(length), old(buf.Length))];
    }

    /** `getBuffer()`: the first `length` bytes (a slice is clamped to the buffer's end). */
    method GetBuffer() returns (r: seq<byte>)
      ensures length <= buf.Length ==> r == buf[..length]
      ensures length > buf.Length ==> r == buf[..]
    {
      r := buf[..Min(length, buf.Length)];
    }
  }

  class BufferReader {
    const buf: array<byte>
    var ptr: nat

    constructor (buffer: array<byte>)
      ensures buf == buffer && ptr == 0
    {
      buf := buffer;
      ptr := 0;
    }

    /** `_boundCheck(diff)` passes: the next `diff` bytes lie inside the buffer. */
    predicate InBounds(diff: nat)
      reads this
    {
      ptr + diff <= buf.Length
    }

    /** `readUInt8()`. */
    method ReadUInt8() returns (r: Option<byte>)
      modifies this
      ensures r == U8At(buf[..], old(ptr))
      ensures r.Some? ==> ptr == old(ptr) + 1
      ensures r.None? ==> ptr == old(ptr)
    {
      if !InBounds(1) {
        return None;
      }
      r := Some(buf[ptr]);
      ptr := ptr + 1;
    }

    /** `readUInt16BE()`. */
    method ReadUInt16BE() returns (r: Option<int>)
      modifies this
      ensures r == U16At(buf[..], old(ptr))
      ensures r.Some? ==> ptr == old(ptr) + 2
      ensures r.None? ==> ptr == old(ptr)
    {
      if !InBounds(2) {
        return None;
      }
      r := Some(FromBE16(buf[ptr..ptr + 2]));
      ptr := ptr + 2;
    }

    /** `readInt32BE()`. */
    method ReadInt32BE() returns (r: Option<int>)
      modifies this
      ensures r == I32At(buf[..], old(ptr))
      ensures r.Some? ==> ptr == old(ptr) + 4
      ensures r.None? ==> ptr == old(ptr)
    {
      if !InBounds(4) {
        return None;
      }
      r := Some(FromInt32BE(buf[ptr..ptr + 4]));
      ptr := ptr + 4;
    }

    /** `readUInt32BE()`. */
    method ReadUInt32BE() returns (r: Option<int>)
      modifies this
      ensures r == U32At(buf[..], old(ptr))
      ensures r.Some? ==> ptr == old(ptr) + 4
      ensures r.None? ==> ptr == old(ptr)
    {
      if !InBounds(4) {
        return None;
      }
      r := Some(FromBE32(buf[ptr..ptr + 4]));
      ptr := ptr + 4;
    }

    /** `readBuffer(n)`: exactly the bytes at `ptr .. ptr + n`. */
    method ReadBuffer(n: nat) returns (r: Option<seq<byte>>)
      modifies this
      ensures r == BytesAt(buf[..], old(ptr), n)
      ensures r.Some? ==> ptr == old(ptr) + n
      ensures r.None? ==> ptr == old(ptr)
    {
      if !InBounds(n) {
        return None;
      }
      r := Some(buf[ptr..ptr + n]);
      ptr := ptr + n;
    }
  }
}
