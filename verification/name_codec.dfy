/**
 * Domain names on the wire (section 3.1 and 4.1.4 of RFC 1035), as the
 * codec reads and writes them: what `readName` returns for the bytes at an
 * offset, and what `writeName` emits for a name given the compression table.
 */
module NameCodec {
  import opened Wrappers
  import opened Bytes
  import opened Strings
  import opened Buffer

  const Dot: byte := '.' as int

  /** Pointer offsets are 14 bits wide. */
  const PointerRange: nat := 0x4000

  /**
   * The list `ret` that `readName` builds from offset `pos` on, and the offset
   * its cursor is left at. A pointer contributes ONE element: the whole name it
   * points to, already joined.
   */
  datatype Parsed = Parsed(parts: seq<Text>, next: nat)

  /** A decoded name and the offset just past it. */
  datatype NameRead = NameRead(name: Text, next: nat)

  /**
   * `readName` at `pos`. `fuel` bounds how deeply pointers may nest: the source
   * has no such bound and recurses without end on a pointer to itself (until
   * the JavaScript stack overflows, which is also a failure).
   */
  function NameParts(data: seq<byte>, pos: nat, fuel: nat): (r: Option<Parsed>)
    ensures r.Some? ==> pos < r.value.next <= |data|
    decreases fuel, |data| - pos
  {
    if pos >= |data| then None
    else
      var len: int := data[pos];
      if len == 0 then Some(Parsed([], pos + 1))
      else if len < 0x40 then
        if pos + 1 + len > |data| then None
        else
          var rest :- NameParts(data, pos + 1 + len, fuel);
          Some(Parsed([data[pos + 1..pos + 1 + len]] + rest.parts, rest.next))
      else if len >= 0xC0 then
        if pos + 2 > |data| || fuel == 0 then None
        else
          var sub :- NameParts(data, PointerTarget(len, data[pos + 1]), fuel - 1);
          Some(Parsed([Join(sub.parts, [Dot])], pos + 2))
      else None
  }

  /** `((b0 & ~0xC0) << 8) | b1`: the offset a pointer whose first byte is `b0 >= 0xC0` names. */
  function PointerTarget(b0: int, b1: byte): (t: nat)
    requires 0xC0 <= b0 < 0x100
    ensures t < PointerRange
  {
    (b0 - 0xC0) * 0x100 + b1
  }

  /** The name `readName` returns at `pos`: its parts joined by dots. */
  function DecodeName(data: seq<byte>, pos: nat, fuel: nat): (r: Option<NameRead>)
    ensures r.Some? <==> NameParts(data, pos, fuel).Some?
  {
    var p :- NameParts(data, pos, fuel);
    Some(NameRead(Join(p.parts, [Dot]), p.next))
  }

  /** `name` is what `readName` returns at `pos` with `fuel`. */
  ghost predicate DecodesTo(data: seq<byte>, pos: nat, fuel: nat, name: Text)
  {
    DecodeName(data, pos, fuel).Some? && DecodeName(data, pos, fuel).value.name == name
  }

  /** A zero length byte ends the name; a length byte whose top bits are 01 or 10 is an error. */
  lemma {:induction false} NameTerminators(data: seq<byte>, pos: nat, fuel: nat)
    requires pos < |data|
    ensures data[pos] == 0 ==> DecodeName(data, pos, fuel) == Some(NameRead([], pos + 1))
    ensures 0x40 <= data[pos] < 0xC0 ==> DecodeName(data, pos, fuel).None?
  {
    assert Join<byte>([], [Dot]) == [];
  }

  /**
   * A pointer reads the name at its target and leaves the cursor just after its
   * two bytes; the labels read before it come first.
   */
  lemma {:induction false} PointerStep(data: seq<byte>, pos: nat, fuel: nat)
    requires pos + 2 <= |data| && data[pos] >= 0xC0 && fuel > 0
    ensures var sub := DecodeName(data, PointerTarget(data[pos], data[pos + 1]), fuel - 1);
            DecodeName(data, pos, fuel) == if sub.None? then None else Some(NameRead(sub.value.name, pos + 2))
  {
    var sub := NameParts(data, PointerTarget(data[pos], data[pos + 1]), fuel - 1);
    if sub.Some? {
      assert NameParts(data, pos, fuel) == Some(Parsed([Join(sub.value.parts, [Dot])], pos + 2));
      assert Join([Join(sub.value.parts, [Dot])], [Dot]) == Join(sub.value.parts, [Dot]);
    }
  }

  /** Decoding never reads past the bytes it needs: appending bytes does not change a successful decode. */
  lemma {:induction false} NamePartsExtend(data: seq<byte>, ext: seq<byte>, pos: nat, fuel: nat)
    requires NameParts(data, pos, fuel).Some?
    ensures NameParts(data + ext, pos, fuel) == NameParts(data, pos, fuel)
    decreases fuel, |data| - pos
  {
    var d := data + ext;
    assert d[pos] == data[pos];
    var len: int := data[pos];
    if len == 0 {
    } else if len < 0x40 {
      NamePartsExtend(data, ext, pos + 1 + len, fuel);
      assert d[pos + 1..pos + 1 + len] == data[pos + 1..pos + 1 + len];
    } else {
      assert d[pos + 1] == data[pos + 1];
      NamePartsExtend(data, ext, PointerTarget(len, data[pos + 1]), fuel - 1);
    }
  }

  /** More fuel does not change a successful decode. */
  lemma {:induction false} NamePartsMoreFuel(data: seq<byte>, pos: nat, fuel: nat, more: nat)
    requires NameParts(data, pos, fuel).Some? && more >= fuel
    ensures NameParts(data, pos, more) == NameParts(data, pos, fuel)
    decreases fuel, |data| - pos
  {
    var len: int := data[pos];
    if len == 0 {
    } else if len < 0x40 {
      NamePartsMoreFuel(data, pos + 1 + len, fuel, more);
    } else {
      NamePartsMoreFuel(data, PointerTarget(len, data[pos + 1]), fuel - 1, more - 1);
    }
  }

  // ---------------------------------------------------------------------------
  // Encoding

  /** The bytes a name adds and the compression table afterwards. */
  datatype Emitted = Emitted(bytes: seq<byte>, names: map<Text, nat>)

  /**
   * `offset | 0xC000` for a non-negative offset below 2^31: bits 14 and 15 are
   * set, every other bit of the offset is kept. Nothing checks that the offset
   * fits in 14 bits.
   */
  function PointerWord(offset: nat): nat
  {
    (offset / 0x1_0000) * 0x1_0000 + 0xC000 + offset % 0x4000
  }

  /** The pointer word's low 16 bits are 0xC000 and the offset's low 14 bits; a 14-bit offset is kept whole. */
  lemma PointerWordBits(offset: nat)
    ensures PointerWord(offset) % 0x1_0000 == 0xC000 + offset % 0x4000
    ensures offset < 0x4000 ==> PointerWord(offset) == 0xC000 + offset
  {
  }

  /**
   * Where the first label of `name` ends: the index of its first dot, or
   * `|name|` when `indexOf` finds none and returns -1.
   */
  function LabelEnd(name: Text): (i: nat)
    ensures i <= |name|
  {
    var id := IndexOf(name, Dot);
    if id < 0 then |name| else id
  }

  /** The first label ends at a dot exactly when `indexOf` finds one. */
  lemma LabelEndDot(name: Text)
    ensures LabelEnd(name) < |name| <==> IndexOf(name, Dot) >= 0
    ensures LabelEnd(name) < |name| ==> LabelEnd(name) == IndexOf(name, Dot) && name[LabelEnd(name)] == Dot
  {
  }

  /**
   * `writeName(name)` with compression table `names` and the writer at offset
   * `pos`; None where one of its writes throws because a value is out of range.
   */
  function EncodeName(names: map<Text, nat>, pos: nat, name: Text): (r: Option<Emitted>)
    ensures r.Some? ==> |r.value.bytes| >= 2
    ensures r.Some? ==> names.Keys <= r.value.names.Keys
    decreases |name|
  {
    if name in names then
      var w := PointerWord(names[name]);
      if w < Two16 then Some(Emitted(BE16(w), names)) else None
    else
      var id := LabelEnd(name);
      if id == |name| then
        if |name| < 0x100 then Some(Emitted([|name|] + name + [0], names)) else None
      else if id >= 0x100 then None
      else
        var rest :- EncodeName(names, pos + 1 + id, name[id + 1..]);
        Some(Emitted([id] + name[..id] + rest.bytes, rest.names[name := pos]))
  }

  /**
   * The empty name, when it is not in the table, is written as two zero bytes:
   * the length byte of an empty label, then the terminator.
   */
  lemma EmptyNameBytes(names: map<Text, nat>, pos: nat)
    requires [] !in names
    ensures EncodeName(names, pos, []) == Some(Emitted([0, 0], names))
  {
    assert LabelEnd([]) == 0;
    var empty: Text := [];
    assert [|empty|] + empty + [0] == [0, 0];
  }

  /** A name already in the table is written as exactly two bytes, `offset | 0xC000`, with no terminator. */
  lemma {:induction false} KnownNameIsPointer(names: map<Text, nat>, pos: nat, name: Text)
    requires name in names && names[name] < PointerRange
    ensures EncodeName(names, pos, name) == Some(Emitted([0xC0 + names[name] / 0x100, names[name] % 0x100], names))
  {
    var o := names[name];
    assert PointerWord(o) == 0xC000 + o;
  }

  /**
   * `writeName` records each dotted suffix it writes literally at the offset of
   * that suffix's first length byte; a single-label name is never recorded,
   * and nothing recorded earlier changes.
   */
  lemma {:induction false} RecordedSuffixes(names: map<Text, nat>, pos: nat, name: Text, e: Emitted)
    requires EncodeName(names, pos, name) == Some(e)
    ensures name !in names && LabelEnd(name) < |name| ==> name in e.names && e.names[name] == pos
    ensures name in names || LabelEnd(name) == |name| ==> e.names == names
    ensures forall s :: s in names ==> s in e.names && e.names[s] == names[s]
    decreases |name|
  {
    if name !in names && LabelEnd(name) < |name| {
      var id := LabelEnd(name);
      var rest := DottedSplit(names, pos, name);
      assert |name[id + 1..]| < |name|;
      RecordedSuffixes(names, pos + 1 + id, name[id + 1..], rest);
      assert e.names == rest.names[name := pos];
      forall s | s in names
        ensures s in e.names && e.names[s] == names[s]
      {
        assert s != name;
      }
    }
  }

  // ---------------------------------------------------------------------------
  // Round trip

  /** A label the round trip holds for: 1 to 63 characters (a length byte with the top bits clear). */
  predicate LabelOk(lbl: Text)
  {
    1 <= |lbl| < 0x40
  }

  /** A dotted name of well-formed labels (hence not empty and without empty labels). */
  predicate NameOk(name: Text)
    decreases |name|
  {
    var id := LabelEnd(name);
    if id == |name| then LabelOk(name)
    else LabelOk(name[..id]) && NameOk(name[id + 1..])
  }

  /**
   * Every entry of the table names an offset below 2^14, inside `data`, where
   * `readName` finds the entry's key with a nesting budget of offset + 1.
   */
  ghost predicate TableOk(data: seq<byte>, names: map<Text, nat>)
  {
    forall s {:trigger EntryOk(data, names[s], s)} :: s in names ==> EntryOk(data, names[s], s)
  }

  /** A table entry: an offset a pointer can name, where `readName` finds `name` with a budget of offset + 1. */
  ghost predicate EntryOk(data: seq<byte>, offset: nat, name: Text)
  {
    offset < |data| && offset < PointerRange && DecodesTo(data, offset, offset + 1, name)
  }

  /** `fuel` suffices to follow a pointer to any table entry. */
  ghost predicate FuelCovers(names: map<Text, nat>, fuel: nat)
  {
    forall s :: s in names ==> names[s] + 2 <= fuel
  }

  lemma {:induction false} TableOkExtend(data: seq<byte>, ext: seq<byte>, names: map<Text, nat>)
    requires TableOk(data, names)
    ensures TableOk(data + ext, names)
  {
    forall s | s in names
      ensures EntryOk(data + ext, names[s], s)
    {
      assert EntryOk(data, names[s], s);
      NamePartsExtend(data, ext, names[s], names[s] + 1);
    }
  }

  /** A table sound for `data` holds offsets inside it, so a budget of |data| + 1 reaches every entry. */
  lemma TableFuel(data: seq<byte>, names: map<Text, nat>)
    requires TableOk(data, names)
    ensures FuelCovers(names, |data| + 1)
  {
    forall s | s in names
      ensures names[s] + 2 <= |data| + 1
    {
      assert EntryOk(data, names[s], s);
    }
  }

  lemma TableOkAdd(data: seq<byte>, names: map<Text, nat>, name: Text, pos: nat)
    requires TableOk(data, names) && EntryOk(data, pos, name)
    ensures TableOk(data, names[name := pos])
  {
    var names' := names[name := pos];
    forall s | s in names'
      ensures EntryOk(data, names'[s], s)
    {
      if s != name {
        assert EntryOk(data, names[s], s);
      }
    }
  }

  lemma TableOkSame(data: seq<byte>, data': seq<byte>, names: map<Text, nat>)
    requires TableOk(data, names) && data == data'
    ensures TableOk(data', names)
  {
  }

  lemma JoinSingle(t: Text)
    ensures Join([t], [Dot]) == t
  {
  }

  /** A length-prefixed label followed by the rest of a name decodes as that label, then the rest. */
  lemma {:induction false} LabelAt(pre: seq<byte>, lbl: Text, more: seq<byte>, fuel: nat)
    requires LabelOk(lbl)
    ensures var data := pre + ([|lbl|] + lbl) + more;
            var tail := NameParts(data, |pre| + 1 + |lbl|, fuel);
            NameParts(data, |pre|, fuel) == if tail.None? then None else Some(Parsed([lbl] + tail.value.parts, tail.value.next))
  {
    var data := pre + ([|lbl|] + lbl) + more;
    var n := |lbl|;
    assert data[|pre|] == n;
    assert data[|pre| + 1..|pre| + 1 + n] == lbl;
  }

  /** The two bytes of `offset | 0xC000` name `offset` again. */
  lemma PointerBytes(o: nat)
    requires o < PointerRange
    ensures 0xC0 <= 0xC0 + o / 0x100 < 0x100 && PointerTarget(0xC0 + o / 0x100, o % 0x100) == o
  {
  }

  /** An entry still decodes the same once bytes are appended and with any larger budget. */
  lemma {:induction false} EntryStable(pre: seq<byte>, ext: seq<byte>, o: nat, name: Text, fuel: nat)
    requires EntryOk(pre, o, name) && o + 1 <= fuel
    ensures NameParts(pre + ext, o, fuel) == NameParts(pre, o, o + 1)
    ensures DecodesTo(pre + ext, o, fuel, name)
  {
    NamePartsExtend(pre, ext, o, o + 1);
    NamePartsMoreFuel(pre + ext, o, o + 1, fuel);
  }

  /** A pointer to an offset where `name` decodes reads back as `name`, the cursor two bytes on. */
  lemma {:induction false} PointerDecodes(pre: seq<byte>, o: nat, name: Text, suffix: seq<byte>, fuel: nat)
    requires EntryOk(pre, o, name) && o + 2 <= fuel
    ensures DecodeName(pre + [0xC0 + o / 0x100, o % 0x100] + suffix, |pre|, fuel) == Some(NameRead(name, |pre| + 2))
  {
    var bytes: seq<byte> := [0xC0 + o / 0x100, o % 0x100];
    var data := pre + bytes + suffix;
    assert data[|pre|] == bytes[0] && data[|pre| + 1] == bytes[1];
    PointerBytes(o);
    EntryStable(pre, bytes + suffix, o, name, fuel - 1);
    assert pre + (bytes + suffix) == data;
    PointerStep(data, |pre|, fuel);
  }

  /** A name found in the table decodes through a pointer to where it was written. */
  lemma {:induction false} KnownNameDecodes(pre: seq<byte>, names: map<Text, nat>, name: Text, e: Emitted, suffix: seq<byte>, fuel: nat)
    requires TableOk(pre, names) && FuelCovers(names, fuel)
    requires name in names && EncodeName(names, |pre|, name) == Some(e)
    ensures DecodeName(pre + e.bytes + suffix, |pre|, fuel) == Some(NameRead(name, |pre| + |e.bytes|))
  {
    var o := names[name];
    assert EntryOk(pre, o, name);
    KnownNameIsPointer(names, |pre|, name);
    PointerDecodes(pre, o, name, suffix, fuel);
  }

  /** A single label not in the table decodes as itself, the terminator after it. */
  lemma {:induction false} SingleLabelDecodes(pre: seq<byte>, names: map<Text, nat>, name: Text, e: Emitted, suffix: seq<byte>, fuel: nat)
    requires name !in names && LabelEnd(name) == |name| && LabelOk(name) && EncodeName(names, |pre|, name) == Some(e)
    ensures DecodeName(pre + e.bytes + suffix, |pre|, fuel) == Some(NameRead(name, |pre| + |e.bytes|))
  {
    var data := pre + e.bytes + suffix;
    var n := |name|;
    assert data == pre + ([n] + name) + ([0] + suffix);
    LabelAt(pre, name, [0] + suffix, fuel);
    assert data[|pre| + 1 + n] == 0;
    assert NameParts(data, |pre| + 1 + n, fuel) == Some(Parsed([], |pre| + 2 + n));
    assert [name] + [] == [name];
    JoinSingle(name);
  }

  /** A name in the table, or a single label, leaves the table as it was. */
  lemma {:induction false} UndottedKeepsTable(names: map<Text, nat>, pos: nat, name: Text, e: Emitted)
    requires name in names || LabelEnd(name) == |name|
    requires EncodeName(names, pos, name) == Some(e)
    ensures e.names == names
  {
  }

  /** One label in front of a name that decodes at the next offset. */
  lemma {:induction false} PrependLabel(pre: seq<byte>, lbl: Text, more: seq<byte>, fuel: nat, restName: Text)
    requires LabelOk(lbl) && restName != []
    requires var data := pre + ([|lbl|] + lbl) + more;
             DecodeName(data, |pre| + 1 + |lbl|, fuel).Some? && DecodeName(data, |pre| + 1 + |lbl|, fuel).value.name == restName
    ensures var data := pre + ([|lbl|] + lbl) + more;
            var tail := DecodeName(data, |pre| + 1 + |lbl|, fuel).value;
            DecodeName(data, |pre|, fuel) == Some(NameRead(lbl + [Dot] + restName, tail.next))
  {
    var data := pre + ([|lbl|] + lbl) + more;
    LabelAt(pre, lbl, more, fuel);
    var tail := NameParts(data, |pre| + 1 + |lbl|, fuel).value;
    assert |tail.parts| >= 1;
    JoinCons(lbl, tail.parts, [Dot]);
  }

  /** The first label and the rest of a well-formed dotted name are well formed, and the rest is not empty. */
  lemma NameOkSplit(name: Text, lbl: Text, restName: Text)
    requires NameOk(name) && LabelEnd(name) < |name|
    requires lbl == name[..LabelEnd(name)] && restName == name[LabelEnd(name) + 1..]
    ensures LabelOk(lbl) && NameOk(restName) && restName != []
  {
    assert NameOk(restName);
    var empty: Text := [];
    assert LabelEnd(empty) == 0;
  }

  /** One label in front of bytes that decode as `restName` (the form `writeName` emits). */
  lemma {:induction false} PrependLabelTo(pre: seq<byte>, lbl: Text, restBytes: seq<byte>, suffix: seq<byte>, fuel: nat, restName: Text)
    requires LabelOk(lbl) && restName != []
    requires DecodeName(pre + ([|lbl|] + lbl) + restBytes + suffix, |pre| + 1 + |lbl|, fuel)
             == Some(NameRead(restName, |pre| + 1 + |lbl| + |restBytes|))
    ensures DecodeName(pre + (([|lbl|] + lbl) + restBytes) + suffix, |pre|, fuel)
            == Some(NameRead(lbl + [Dot] + restName, |pre| + 1 + |lbl| + |restBytes|))
  {
    var labelBytes: seq<byte> := [|lbl|] + lbl;
    AppendAssoc(pre, labelBytes, restBytes);
    AppendAssoc(pre + labelBytes, restBytes, suffix);
    PrependLabel(pre, lbl, restBytes + suffix, fuel, restName);
  }

  /** A name with a dot is its first label, the dot, and the rest. */
  lemma DotSplit(name: Text)
    requires LabelEnd(name) < |name|
    ensures var id := LabelEnd(name); name == name[..id] + [Dot] + name[id + 1..]
  {
    SplitAt(name, LabelEnd(name));
  }

  /**
   * How `writeName` writes a dotted name not in the table: the first label
   * and its length byte, then the rest of the name one byte further on.
   */
  lemma {:induction false} DottedSplit(names: map<Text, nat>, pos: nat, name: Text) returns (rest: Emitted)
    requires name !in names && LabelEnd(name) < |name| && EncodeName(names, pos, name).Some?
    ensures var id := LabelEnd(name);
            EncodeName(names, pos + 1 + id, name[id + 1..]) == Some(rest) &&
            EncodeName(names, pos, name) == Some(Emitted([id] + name[..id] + rest.bytes, rest.names[name := pos]))
  {
    var id := LabelEnd(name);
    rest := EncodeName(names, pos + 1 + id, name[id + 1..]).value;
  }

  /** `writeName` on a dotted name not in the table, in terms of what it writes for the rest of the name. */
  lemma DottedCase(names: map<Text, nat>, pos: nat, name: Text, id: nat, at: nat)
    requires name !in names && id == LabelEnd(name) < |name| && at == pos + 1 + id
    ensures var rest := EncodeName(names, at, name[id + 1..]);
            EncodeName(names, pos, name) ==
              if id >= 0x100 || rest.None? then None
              else Some(Emitted([id] + name[..id] + rest.value.bytes, rest.value.names[name := pos]))
  {
  }

  /** The dotted case reduced to its first label and the rest of the name. */
  lemma {:induction false} DottedPremises(pre: seq<byte>, names: map<Text, nat>, name: Text, e: Emitted, fuel: nat)
      returns (lbl: Text, restName: Text, rest: Emitted)
    requires TableOk(pre, names) && FuelCovers(names, fuel)
    requires NameOk(name) && name !in names && LabelEnd(name) < |name| && EncodeName(names, |pre|, name) == Some(e)
    requires |pre| + |e.bytes| <= PointerRange
    ensures name == lbl + [Dot] + restName
    ensures LabelThenNameOk(pre, names, name, lbl, restName, rest, fuel)
    ensures e == Emitted([|lbl|] + lbl + rest.bytes, rest.names[name := |pre|])
  {
    lbl, restName, rest := DottedShape(names, |pre|, name, e);
    LabelThenNameIntro(pre, names, name, lbl, restName, rest, fuel);
  }

  /** What `writeName` emits for a dotted name not in the table, split at its first dot. */
  lemma {:induction false} DottedShape(names: map<Text, nat>, pos: nat, name: Text, e: Emitted)
      returns (lbl: Text, restName: Text, rest: Emitted)
    requires NameOk(name) && name !in names && LabelEnd(name) < |name| && EncodeName(names, pos, name) == Some(e)
    ensures name == lbl + [Dot] + restName && |restName| < |name|
    ensures LabelOk(lbl) && NameOk(restName) && restName != []
    ensures EncodeName(names, pos + 1 + |lbl|, restName) == Some(rest)
    ensures e == Emitted([|lbl|] + lbl + rest.bytes, rest.names[name := pos])
    ensures |e.bytes| == 1 + |lbl| + |rest.bytes|
  {
    var id := LabelEnd(name);
    lbl := name[..id];
    restName := name[id + 1..];
    rest := DottedSplit(names, pos, name);
    DotSplit(name);
    NameOkSplit(name, lbl, restName);
    assert |lbl| == id && |restName| < |name|;
    assert e == Emitted([id] + lbl + rest.bytes, rest.names[name := pos]);
  }

  /** The premises of the dotted case, with the name already split into its first label and the rest. */
  ghost predicate LabelThenNameOk(pre: seq<byte>, names: map<Text, nat>, name: Text, lbl: Text, restName: Text, rest: Emitted, fuel: nat)
  {
    |restName| < |name| &&
    TableOk(pre, names) && FuelCovers(names, fuel) &&
    LabelOk(lbl) && NameOk(restName) && restName != [] &&
    EncodeName(names, |pre| + 1 + |lbl|, restName) == Some(rest) &&
    |pre| + 1 + |lbl| + |rest.bytes| <= PointerRange
  }

  lemma LabelThenNameIntro(pre: seq<byte>, names: map<Text, nat>, name: Text, lbl: Text, restName: Text, rest: Emitted, fuel: nat)
    requires |restName| < |name|
    requires TableOk(pre, names) && FuelCovers(names, fuel)
    requires LabelOk(lbl) && NameOk(restName) && restName != []
    requires EncodeName(names, |pre| + 1 + |lbl|, restName) == Some(rest)
    requires |pre| + 1 + |lbl| + |rest.bytes| <= PointerRange
    ensures LabelThenNameOk(pre, names, name, lbl, restName, rest, fuel)
  {
  }

  /**
   * Round trip: when the table is sound for the bytes already written, the
   * bytes `writeName` emits for a well-formed name decode back to that name,
   * whatever follows them, leaving the cursor just after them; and the table
   * it leaves is sound for the extended bytes.
   */
  lemma NameRoundTrip(pre: seq<byte>, names: map<Text, nat>, name: Text, e: Emitted, suffix: seq<byte>, fuel: nat)
    requires TableOk(pre, names) && FuelCovers(names, fuel)
    requires NameOk(name) && EncodeName(names, |pre|, name) == Some(e)
    requires |pre| + |e.bytes| <= PointerRange
    ensures DecodeName(pre + e.bytes + suffix, |pre|, fuel) == Some(NameRead(name, |pre| + |e.bytes|))
    ensures TableOk(pre + e.bytes, e.names)
  {
    NameDecodes(pre, names, name, e, suffix, fuel);
    NameTable(pre, names, name, e);
  }

  /** The decoding half of the round trip. */
  lemma {:induction false} NameDecodes(pre: seq<byte>, names: map<Text, nat>, name: Text, e: Emitted, suffix: seq<byte>, fuel: nat)
    requires TableOk(pre, names) && FuelCovers(names, fuel)
    requires NameOk(name) && EncodeName(names, |pre|, name) == Some(e)
    requires |pre| + |e.bytes| <= PointerRange
    ensures DecodeName(pre + e.bytes + suffix, |pre|, fuel) == Some(NameRead(name, |pre| + |e.bytes|))
    decreases |name|, 1
  {
    if name in names {
      KnownNameDecodes(pre, names, name, e, suffix, fuel);
    } else if LabelEnd(name) == |name| {
      SingleLabelDecodes(pre, names, name, e, suffix, fuel);
    } else {
      var lbl, restName, rest := DottedPremises(pre, names, name, e, fuel);
      DottedDecodes(pre, names, name, lbl, restName, rest, suffix, fuel);
    }
  }

  /** A dotted name decodes as its first label followed by the rest, which decodes by induction. */
  lemma {:induction false} DottedDecodes(pre: seq<byte>, names: map<Text, nat>, name: Text, lbl: Text, restName: Text, rest: Emitted, suffix: seq<byte>, fuel: nat)
    requires name == lbl + [Dot] + restName && LabelThenNameOk(pre, names, name, lbl, restName, rest, fuel)
    ensures DecodeName(pre + ([|lbl|] + lbl + rest.bytes) + suffix, |pre|, fuel)
            == Some(NameRead(name, |pre| + 1 + |lbl| + |rest.bytes|))
    decreases |name|, 0
  {
    var labelBytes: seq<byte> := [|lbl|] + lbl;
    assert |pre + labelBytes| == |pre| + 1 + |lbl|;
    TableOkExtend(pre, labelBytes, names);
    NameDecodes(pre + labelBytes, names, restName, rest, suffix, fuel);
    PrependLabelTo(pre, lbl, rest.bytes, suffix, fuel, restName);
  }

  /** The table half of the round trip. */
  lemma {:induction false} NameTable(pre: seq<byte>, names: map<Text, nat>, name: Text, e: Emitted)
    requires TableOk(pre, names)
    requires NameOk(name) && EncodeName(names, |pre|, name) == Some(e)
    requires |pre| + |e.bytes| <= PointerRange
    ensures TableOk(pre + e.bytes, e.names)
    decreases |name|, 3
  {
    if name in names || LabelEnd(name) == |name| {
      UndottedKeepsTable(names, |pre|, name, e);
      TableOkExtend(pre, e.bytes, names);
    } else {
      TableFuel(pre, names);
      var lbl, restName, rest := DottedPremises(pre, names, name, e, |pre| + 1);
      DottedTable(pre, names, name, lbl, restName, rest);
    }
  }

  /** After a dotted name, the table holds the rest's entries and the name itself at its first length byte. */
  lemma {:induction false} DottedTable(pre: seq<byte>, names: map<Text, nat>, name: Text, lbl: Text, restName: Text, rest: Emitted)
    requires name == lbl + [Dot] + restName && LabelThenNameOk(pre, names, name, lbl, restName, rest, |pre| + 1)
    ensures TableOk(pre + ([|lbl|] + lbl + rest.bytes), rest.names[name := |pre|])
    decreases |name|, 2
  {
    var labelBytes: seq<byte> := [|lbl|] + lbl;
    DottedRestTable(pre, names, name, lbl, restName, rest);
    DottedEntry(pre, names, name, lbl, restName, rest);
    TableOkAdd(pre + (labelBytes + rest.bytes), rest.names, name, |pre|);
  }

  /** The table the rest of the name leaves behind is sound for all the bytes written. */
  lemma {:induction false} DottedRestTable(pre: seq<byte>, names: map<Text, nat>, name: Text, lbl: Text, restName: Text, rest: Emitted)
    requires LabelThenNameOk(pre, names, name, lbl, restName, rest, |pre| + 1)
    ensures TableOk(pre + ([|lbl|] + lbl + rest.bytes), rest.names)
    decreases |name|, 1
  {
    var labelBytes: seq<byte> := [|lbl|] + lbl;
    TableOkExtend(pre, labelBytes, names);
    AfterLabelTable(pre, names, name, lbl, restName, rest);
    AppendAssoc(pre, labelBytes, rest.bytes);
  }

  /** The recursive step: the rest of the name, written after the label, keeps the table sound. */
  lemma {:induction false} AfterLabelTable(pre: seq<byte>, names: map<Text, nat>, name: Text, lbl: Text, restName: Text, rest: Emitted)
    requires LabelThenNameOk(pre, names, name, lbl, restName, rest, |pre| + 1)
    requires TableOk(pre + ([|lbl|] + lbl), names)
    ensures TableOk(pre + ([|lbl|] + lbl) + rest.bytes, rest.names)
    decreases |name|, 0
  {
    var labelBytes: seq<byte> := [|lbl|] + lbl;
    assert |pre + labelBytes| == |pre| + 1 + |lbl|;
    NameTable(pre + labelBytes, names, restName, rest);
  }

  /** The offset recorded for the dotted name is where it decodes, with budget offset + 1. */
  lemma {:induction false} DottedEntry(pre: seq<byte>, names: map<Text, nat>, name: Text, lbl: Text, restName: Text, rest: Emitted)
    requires name == lbl + [Dot] + restName && LabelThenNameOk(pre, names, name, lbl, restName, rest, |pre| + 1)
    ensures EntryOk(pre + ([|lbl|] + lbl + rest.bytes), |pre|, name)
  {
    var bytes: seq<byte> := [|lbl|] + lbl + rest.bytes;
    DottedDecodes(pre, names, name, lbl, restName, rest, [], |pre| + 1);
    assert pre + bytes + [] == pre + bytes;
  }

  /** A larger budget still covers the table. */
  lemma FuelMore(names: map<Text, nat>, fuel: nat, more: nat)
    requires FuelCovers(names, fuel) && fuel <= more
    ensures FuelCovers(names, more)
  {
  }

  /**
   * The round trip inside one message: where the table is sound for the bytes
   * before `off` and `data` holds what `writeName` emitted at `off`,
   * `readName` with a budget of the message length finds the name and stops
   * right after it, and the new table is sound for the bytes up to there.
   */
  lemma {:induction false} NameAt(data: seq<byte>, off: nat, names: map<Text, nat>, name: Text, e: Emitted, next: nat)
    requires off <= |data| && TableOk(data[..off], names) && NameOk(name)
    requires EncodeName(names, off, name) == Some(e) && HoldsAt(data, off, e.bytes)
    requires next == off + |e.bytes| && next <= PointerRange
    ensures DecodeName(data, off, |data|) == Some(NameRead(name, next))
    ensures next <= |data| && TableOk(data[..next], e.names)
  {
    var pre := data[..off];
    var suffix := data[next..];
    assert data == pre + e.bytes + suffix;
    TableFuel(pre, names);
    FuelMore(names, off + 1, |data|);
    NameRoundTrip(pre, names, name, e, suffix, |data|);
    assert data[..next] == pre + e.bytes;
  }

  /** A table sound for a prefix of a message stays sound for any longer prefix. */
  lemma {:induction false} TablePrefix(data: seq<byte>, a: nat, b: nat, names: map<Text, nat>)
    requires a <= b <= |data| && TableOk(data[..a], names)
    ensures TableOk(data[..b], names)
  {
    TableOkExtend(data[..a], data[a..b], names);
    assert data[..a] + data[a..b] == data[..b];
  }
}
