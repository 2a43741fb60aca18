/**
 * The DNS-aware cursors: a writer that compresses names with a table of the
 * suffixes it has written, and a reader that follows compression pointers.
 * Each extends the plain byte cursor it wraps with `readName` or `writeName`.
 */
module DnsCursor {
  import opened Wrappers
  import opened Bytes
  import opened Strings
  import opened Buffer
  import opened NameCodec

  /** `parts` in front of the labels of a successful parse; None stays None. */
  function Prefixed(parts: seq<Text>, p: Option<Parsed>): (r: Option<Parsed>)
    ensures r.Some? <==> p.Some?
  {
    if p.None? then None else Some(Parsed(parts + p.value.parts, p.value.next))
  }

  class DnsWriter {
    /** The byte writer this one extends. */
    const base: BufferWriter
    /** `_names`: each suffix written literally, mapped to the offset of its first length byte. */
    var names: map<Text, nat>

    ghost predicate Valid()
      reads this, base
    {
      base.Valid()
    }

    /** A new writer: 256 zero bytes, nothing written, an empty table. */
    constructor ()
      ensures Valid() && fresh(base) && fresh(base.buf)
      ensures base.length == 0 && base.buf.Length == InitialCapacity && names == map[]
    {
      base := new BufferWriter(InitialCapacity);
      names := map[];
    }

    /**
     * A length byte and the label's characters, as `writeName` writes a label:
     * fails when the length does not fit in a byte (or the bytes do not fit
     * the buffer), succeeds whenever they fit in the buffer as it is.
     */
    method WriteLabel(lbl: Text) returns (ok: bool)
      requires Valid()
      modifies base, base.buf
      ensures Valid() && base.buf.Length >= old(base.buf.Length)
      ensures base.buf != old(base.buf) ==> fresh(base.buf)
      ensures ok ==> |lbl| < 0x100 && Appends(old(base.buf[..]), old(base.length), base.buf[..], base.length, [|lbl|] + lbl)
      ensures |lbl| < 0x100 && old(base.length) + 1 + |lbl| <= old(base.buf.Length) ==> ok
    {
      ghost var b0, n0 := base.buf[..], base.length;
      ok := base.WriteUInt8(|lbl|);
      if !ok {
        return;
      }
      ghost var b1, n1 := base.buf[..], base.length;
      ok := base.WriteBuffer(lbl);
      if ok {
        AppendsTrans(b0, n0, b1, n1, base.buf[..], base.length, [|lbl|], lbl);
      }
    }

    /**
     * `writeName(name)`: appends exactly the bytes `EncodeName` gives for the
     * current offset and table and leaves the table it gives; fails whenever
     * `EncodeName` does, and succeeds whenever those bytes fit in the buffer
     * as it is. (Strings are written as their character codes, which is what
     * `writeString` writes for ASCII text.)
     */
    method WriteName(name: Text) returns (ok: bool)
      requires Valid()
      modifies this, base, base.buf
      ensures Valid() && base.buf.Length >= old(base.buf.Length)
      ensures base.buf != old(base.buf) ==> fresh(base.buf)
      ensures var e := EncodeName(old(names), old(base.length), name);
              ok ==> e.Some? && names == e.value.names &&
                     Appends(old(base.buf[..]), old(base.length), base.buf[..], base.length, e.value.bytes)
      ensures var e := EncodeName(old(names), old(base.length), name);
              e.Some? && old(base.length) + |e.value.bytes| <= old(base.buf.Length) ==> ok
      decreases |name|, 1
    {
      if name in names {
        ok := base.WriteUInt16BE(PointerWord(names[name]));
        return;
      }
      var id := IndexOf(name, Dot);
      LabelEndDot(name);
      if id == -1 {
        ghost var b0, n0 := base.buf[..], base.length;
        ok := WriteLabel(name);
        if !ok {
          return;
        }
        ghost var b1, n1 := base.buf[..], base.length;
        ok := base.WriteUInt8(0);
        if ok {
          AppendsTrans(b0, n0, b1, n1, base.buf[..], base.length, [|name|] + name, [0]);
        }
      } else {
        ok := WriteDotted(name, id);
      }
    }

    /** The dotted case of `writeName`: the first label, the rest of the name, then the table entry. */
    method WriteDotted(name: Text, id: nat) returns (ok: bool)
      requires Valid() && name !in names && id == LabelEnd(name) < |name|
      modifies this, base, base.buf
      ensures Valid() && base.buf.Length >= old(base.buf.Length)
      ensures base.buf != old(base.buf) ==> fresh(base.buf)
      ensures var e := EncodeName(old(names), old(base.length), name);
              ok ==> e.Some? && names == e.value.names &&
                     Appends(old(base.buf[..]), old(base.length), base.buf[..], base.length, e.value.bytes)
      ensures var e := EncodeName(old(names), old(base.length), name);
              e.Some? && old(base.length) + |e.value.bytes| <= old(base.buf.Length) ==> ok
      decreases |name|, 0
    {
      ghost var b0, n0, names0 := base.buf[..], base.length, names;
      var ptr := base.length;
      var lbl, restName := name[..id], name[id + 1..];
      ok := WriteLabel(lbl);
      if !ok {
        DottedCase(names0, n0, name, id, n0 + 1 + id);
        return;
      }
      ghost var b1, n1 := base.buf[..], base.length;
      DottedCase(names0, n0, name, id, n1);
      ghost var rest := EncodeName(names0, n1, restName);
      ok := WriteName(restName);
      if !ok {
        return;
      }
      AppendsTrans(b0, n0, b1, n1, base.buf[..], base.length, [id] + name[..id], rest.value.bytes);
      names := names[name := ptr];
    }
  }

  class DnsReader {
    /** The byte reader this one extends. */
    const base: BufferReader

    constructor (buffer: array<byte>)
      ensures fresh(base) && base.buf == buffer && base.ptr == 0
    {
      base := new BufferReader(buffer);
    }

    /**
     * `readName()`: returns the name `DecodeName` gives at the cursor and
     * leaves the cursor where it says, or fails where it fails. `fuel` is the
     * pointer-nesting budget of `DecodeName`; the source has none.
     */
    method ReadName(fuel: nat) returns (r: Option<Text>)
      modifies base
      ensures var d := DecodeName(base.buf[..], old(base.ptr), fuel);
              r == (if d.None? then None else Some(d.value.name))
      ensures var d := DecodeName(base.buf[..], old(base.ptr), fuel);
              r.Some? ==> base.ptr == d.value.next
      decreases fuel, 1
    {
      ghost var data := base.buf[..];
      ghost var start := base.ptr;
      var ret: seq<Text> := [];
      PrefixedNothing(NameParts(data, start, fuel));
      while true
        invariant base.buf[..] == data
        invariant NameParts(data, start, fuel) == Prefixed(ret, NameParts(data, base.ptr, fuel))
        decreases |data| - base.ptr
      {
        ghost var here := base.ptr;
        var segLen := base.ReadUInt8();
        if segLen.None? {
          return None;
        }
        var len := segLen.value;
        if len == 0 {
          assert ret + [] == ret;
          return Some(Join(ret, [Dot]));
        }
        if len < 0x40 {
          // An uncompressed label
          var s := base.ReadBuffer(len);
          if s.None? {
            return None;
          }
          LabelStep(data, here, fuel);
          PrefixedPrefixed(ret, s.value, NameParts(data, base.ptr, fuel));
          ret := ret + [s.value];
        } else if len >= 0xC0 {
          // A pointer ends the name
          var sub := ReadPointer(len, fuel);
          if sub.None? {
            return None;
          }
          ret := ret + [sub.value];
          return Some(Join(ret, [Dot]));
        } else {
          return None;
        }
      }
    }

    /**
     * The pointer branch of `readName`, its first byte `hi` already read:
     * reads the second byte, the name at the offset they form, and puts the
     * cursor back after the two bytes.
     */
    method ReadPointer(hi: byte, fuel: nat) returns (r: Option<Text>)
      requires hi >= 0xC0 && 1 <= base.ptr <= base.buf.Length && base.buf[base.ptr - 1] == hi
      modifies base
      ensures var d := NameParts(base.buf[..], old(base.ptr) - 1, fuel);
              r.Some? <==> d.Some?
      ensures var d := NameParts(base.buf[..], old(base.ptr) - 1, fuel);
              r.Some? ==> d.value == Parsed([r.value], base.ptr)
      decreases fuel, 0
    {
      ghost var data := base.buf[..];
      ghost var at := base.ptr - 1;
      var lo := base.ReadUInt8();
      if lo.None? || fuel == 0 {
        return None;
      }
      var offset := PointerTarget(hi, lo.value);
      var backup := base.ptr;
      base.ptr := offset;
      r := ReadName(fuel - 1);
      if r.Some? {
        base.ptr := backup;
      }
    }
  }

  /** A label at `pos`: its bytes come first, then whatever follows them. */
  lemma LabelStep(data: seq<byte>, pos: nat, fuel: nat)
    requires pos < |data| && 0 < data[pos] < 0x40 && pos + 1 + data[pos] <= |data|
    ensures NameParts(data, pos, fuel) == Prefixed([data[pos + 1..pos + 1 + data[pos]]], NameParts(data, pos + 1 + data[pos], fuel))
  {
  }

  lemma PrefixedNothing(p: Option<Parsed>)
    ensures Prefixed([], p) == p
  {
    if p.Some? {
      assert [] + p.value.parts == p.value.parts;
    }
  }

  lemma PrefixedPrefixed(ret: seq<Text>, s: Text, p: Option<Parsed>)
    ensures Prefixed(ret, Prefixed([s], p)) == Prefixed(ret + [s], p)
  {
    if p.Some? {
      assert ret + ([s] + p.value.parts) == ret + [s] + p.value.parts;
    }
  }
}
