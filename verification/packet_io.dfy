/**
 * The serializers and deserializers as the code runs them: `_serialize`
 * writes through the shared DNS writer, `_deserialize` reads through the
 * shared DNS reader, one field after the other. Each method is proved to do
 * exactly what the encoding or decoding function of the message says.
 */
module PacketIO {
  import opened Wrappers
  import opened Bytes
  import opened JsBits
  import opened Strings
  import opened Buffer
  import opened NameCodec
  import opened DnsCursor
  import opened Message
  import opened MessageLaws

  // ---------------------------------------------------------------------------
  // A section grows one entry at a time

  /** `a` followed by what `b` emits, or None if `b` failed. */
  function Extend(a: Emitted, b: Option<Emitted>): (r: Option<Emitted>)
    ensures r.Some? <==> b.Some?
    ensures r.Some? ==> r.value.bytes == a.bytes + b.value.bytes && r.value.names == b.value.names
  {
    if b.None? then None else Some(Emitted(a.bytes + b.value.bytes, b.value.names))
  }

  /** Encoding one more question continues where the section so far ends, with its table. */
  lemma {:induction false} QuestionsSnoc(names: map<Text, nat>, pos: nat, qs: seq<Question>, q: Question, a: Emitted)
    requires EncodeQuestions(names, pos, qs) == Some(a)
    ensures EncodeQuestions(names, pos, qs + [q]) == Extend(a, EncodeQuestion(a.names, After(pos, a), q))
    decreases |qs|
  {
    if |qs| == 0 {
      assert [] + [q] == [q];
      var e := EncodeQuestion(names, pos, q);
      if e.Some? {
        assert EncodeQuestions(e.value.names, After(pos, e.value), []) == Some(Emitted([], e.value.names));
        assert e.value.bytes + [] == [] + e.value.bytes;
      }
    } else {
      var h := EncodeQuestion(names, pos, qs[0]).value;
      var t := EncodeQuestions(h.names, After(pos, h), qs[1..]).value;
      assert (qs + [q])[0] == qs[0] && (qs + [q])[1..] == qs[1..] + [q];
      QuestionsSnoc(h.names, After(pos, h), qs[1..], q, t);
      assert After(After(pos, h), t) == After(pos, a);
      var x := EncodeQuestion(a.names, After(pos, a), q);
      if x.Some? {
        assert a.bytes == h.bytes + t.bytes;
        AppendAssoc(h.bytes, t.bytes, x.value.bytes);
      }
    }
  }

  /** Encoding one more record continues where the section so far ends, with its table. */
  lemma {:induction false} RecordsSnoc(names: map<Text, nat>, pos: nat, rs: seq<ResourceRecord>, rr: ResourceRecord, a: Emitted)
    requires EncodeRecords(names, pos, rs) == Some(a)
    ensures EncodeRecords(names, pos, rs + [rr]) == Extend(a, EncodeRecord(a.names, After(pos, a), rr))
    decreases |rs|
  {
    if |rs| == 0 {
      assert [] + [rr] == [rr];
      var e := EncodeRecord(names, pos, rr);
      if e.Some? {
        assert EncodeRecords(e.value.names, After(pos, e.value), []) == Some(Emitted([], e.value.names));
        assert e.value.bytes + [] == [] + e.value.bytes;
      }
    } else {
      var h := EncodeRecord(names, pos, rs[0]).value;
      var t := EncodeRecords(h.names, After(pos, h), rs[1..]).value;
      assert (rs + [rr])[0] == rs[0] && (rs + [rr])[1..] == rs[1..] + [rr];
      RecordsSnoc(h.names, After(pos, h), rs[1..], rr, t);
      assert After(After(pos, h), t) == After(pos, a);
      var x := EncodeRecord(a.names, After(pos, a), rr);
      if x.Some? {
        assert a.bytes == h.bytes + t.bytes;
        AppendAssoc(h.bytes, t.bytes, x.value.bytes);
      }
    }
  }

  /** Every prefix of an encodable question section is encodable, and no longer. */
  lemma {:induction false} QuestionsPrefix(names: map<Text, nat>, pos: nat, qs: seq<Question>, i: nat, e: Emitted)
    requires i <= |qs| && EncodeQuestions(names, pos, qs) == Some(e)
    ensures EncodeQuestions(names, pos, qs[..i]).Some?
    ensures |EncodeQuestions(names, pos, qs[..i]).value.bytes| <= |e.bytes|
    decreases i
  {
    if i != 0 {
      var h := EncodeQuestion(names, pos, qs[0]).value;
      var t := EncodeQuestions(h.names, After(pos, h), qs[1..]).value;
      QuestionsPrefix(h.names, After(pos, h), qs[1..], i - 1, t);
      assert qs[..i][0] == qs[0] && qs[..i][1..] == qs[1..][..i - 1];
    }
  }

  /** Every prefix of an encodable record section is encodable, and no longer. */
  lemma {:induction false} RecordsPrefix(names: map<Text, nat>, pos: nat, rs: seq<ResourceRecord>, i: nat, e: Emitted)
    requires i <= |rs| && EncodeRecords(names, pos, rs) == Some(e)
    ensures EncodeRecords(names, pos, rs[..i]).Some?
    ensures |EncodeRecords(names, pos, rs[..i]).value.bytes| <= |e.bytes|
    decreases i
  {
    if i != 0 {
      var h := EncodeRecord(names, pos, rs[0]).value;
      var t := EncodeRecords(h.names, After(pos, h), rs[1..]).value;
      RecordsPrefix(h.names, After(pos, h), rs[1..], i - 1, t);
      assert rs[..i][0] == rs[0] && rs[..i][1..] == rs[1..][..i - 1];
    }
  }

  /** A prefix one longer is the prefix with the next element. */
  lemma TakeSnoc<T>(s: seq<T>, i: nat)
    requires i < |s|
    ensures s[..i + 1] == s[..i] + [s[i]]
  {
  }

  /** One more question written where the section so far ends extends the encoded section. */
  lemma QuestionsStep(names: map<Text, nat>, pos: nat, qs: seq<Question>, q: Question, acc: Emitted, x: Emitted)
    requires EncodeQuestions(names, pos, qs) == Some(acc)
    requires EncodeQuestion(acc.names, After(pos, acc), q) == Some(x)
    ensures EncodeQuestions(names, pos, qs + [q]) == Some(Emitted(acc.bytes + x.bytes, x.names))
  {
    QuestionsSnoc(names, pos, qs, q, acc);
  }

  /** When the whole question section encodes, so does its next question, within the section's length. */
  lemma QuestionsNext(names: map<Text, nat>, pos: nat, qs: seq<Question>, i: nat, acc: Emitted, all: Emitted)
    requires i < |qs| && EncodeQuestions(names, pos, qs[..i]) == Some(acc) && EncodeQuestions(names, pos, qs) == Some(all)
    ensures var x := EncodeQuestion(acc.names, After(pos, acc), qs[i]);
            x.Some? && |acc.bytes| + |x.value.bytes| <= |all.bytes|
  {
    QuestionsSnoc(names, pos, qs[..i], qs[i], acc);
    assert qs[..i] + [qs[i]] == qs[..i + 1];
    QuestionsPrefix(names, pos, qs, i + 1, all);
  }

  /** One more record written where the section so far ends extends the encoded section. */
  lemma RecordsStep(names: map<Text, nat>, pos: nat, rs: seq<ResourceRecord>, rr: ResourceRecord, acc: Emitted, x: Emitted)
    requires EncodeRecords(names, pos, rs) == Some(acc)
    requires EncodeRecord(acc.names, After(pos, acc), rr) == Some(x)
    ensures EncodeRecords(names, pos, rs + [rr]) == Some(Emitted(acc.bytes + x.bytes, x.names))
  {
    RecordsSnoc(names, pos, rs, rr, acc);
  }

  /** When the whole record section encodes, so does its next record, within the section's length. */
  lemma RecordsNext(names: map<Text, nat>, pos: nat, rs: seq<ResourceRecord>, i: nat, acc: Emitted, all: Emitted)
    requires i < |rs| && EncodeRecords(names, pos, rs[..i]) == Some(acc) && EncodeRecords(names, pos, rs) == Some(all)
    ensures var x := EncodeRecord(acc.names, After(pos, acc), rs[i]);
            x.Some? && |acc.bytes| + |x.value.bytes| <= |all.bytes|
  {
    RecordsSnoc(names, pos, rs[..i], rs[i], acc);
    assert rs[..i] + [rs[i]] == rs[..i + 1];
    RecordsPrefix(names, pos, rs, i + 1, all);
  }

  /** The SOA payload assembled from its two names, the second written from `at`, and its five numbers. */
  lemma SOAEncoded(names: map<Text, nat>, pos: nat, d: RData, em: Emitted, er: Emitted, at: nat)
    requires d.SOA? && EncodeName(names, pos, d.mname) == Some(em) && at == pos + |em.bytes|
    requires EncodeName(em.names, at, d.rname) == Some(er)
    requires U32(d.serial) && I32(d.refresh) && I32(d.retry) && I32(d.expire) && I32(d.minimum)
    ensures EncodeRData(names, pos, d)
            == Some(Emitted(em.bytes + (er.bytes + SOANumbers(d.serial, d.refresh, d.retry, d.expire, d.minimum)), er.names))
  {
    assert After(pos, em) == at;
  }

  /**
   * The length field written back over the two bytes reserved at `ptr`, once
   * the payload `d` has been appended after them: together they are appended at `ptr`.
   */
  lemma {:induction false} Backpatched(b0: seq<byte>, ptr: nat, b1: seq<byte>, next: nat, d: seq<byte>, len: seq<byte>, b2: seq<byte>)
    requires |len| == 2 && Appends(b0, ptr + 2, b1, next, d)
    requires ptr + 2 <= |b1| && b2 == Splice(b1, ptr, len)
    ensures Appends(b0, ptr, b2, next, len + d)
  {
    SpliceIs(b1, ptr, len);
    assert b2[ptr..ptr + 2] == len && b2[ptr + 2..next] == b1[ptr + 2..next];
    assert b2[ptr..next] == len + d;
    assert b2[..Min(ptr, |b0|)] == b1[..Min(ptr + 2, |b0|)][..Min(ptr, |b0|)];
  }

  // ---------------------------------------------------------------------------
  // Writing

  /**
   * `DNSRecordA._serializeData`: splits the address at the dots, fails unless
   * there are four parts, and writes `parseInt` of each as one byte (a part
   * that is not a number is written as 0).
   */
  method WriteAddress(wr: BufferWriter, address: Text) returns (ok: bool)
    requires wr.Valid()
    modifies wr, wr.buf
    ensures wr.Valid() && wr.buf == old(wr.buf)
    ensures var e := AddressBytes(address);
            ok ==> e.Some? && Appends(old(wr.buf[..]), old(wr.length), wr.buf[..], wr.length, e.value)
    ensures AddressBytes(address).Some? && old(wr.length) + 4 <= wr.buf.Length ==> ok
  {
    var addr := Split(address, Dot);
    if |addr| != 4 {
      return false;
    }
    ghost var b0, n0 := wr.buf[..], wr.length;
    ghost var acc: seq<byte> := [];
    for i := 0 to 4
      invariant wr.Valid() && wr.buf == old(wr.buf)
      invariant |acc| == i && wr.length == n0 + i
      invariant forall j :: 0 <= j < i ==> SegmentByte(addr[j]) == Some(acc[j])
      invariant i == 0 ==> wr.buf[..] == b0
      invariant i > 0 ==> Appends(b0, n0, wr.buf[..], wr.length, acc)
      invariant AddressBytes(address).Some? ==> forall j :: 0 <= j < 4 ==> SegmentByte(addr[j]).Some?
    {
      ghost var b1, n1 := wr.buf[..], wr.length;
      ok := WriteSegment(wr, addr[i]);
      if !ok {
        return;
      }
      ghost var value := SegmentByte(addr[i]).value;
      if i > 0 {
        AppendsTrans(b0, n0, b1, n1, wr.buf[..], wr.length, acc, [value]);
      }
      acc := acc + [value];
    }
    var r := SegmentBytes(addr);
    assert r.value == acc;
    ok := true;
  }

  /** `writer.writeUInt8(parseInt(seg))`: Node stores a NaN as 0 and rejects a number outside 0..255. */
  method WriteSegment(wr: BufferWriter, seg: Text) returns (ok: bool)
    requires wr.Valid()
    modifies wr, wr.buf
    ensures wr.Valid() && wr.buf == old(wr.buf)
    ensures ok ==> SegmentByte(seg).Some? && Appends(old(wr.buf[..]), old(wr.length), wr.buf[..], wr.length, [SegmentByte(seg).value])
    ensures SegmentByte(seg).Some? && old(wr.length) + 1 <= wr.buf.Length ==> ok
  {
    var v := ParseIntAuto(seg);
    var value := if v.None? then 0 else v.value;
    ok := wr.WriteUInt8(value);
  }

  /** `DNSRecordSOA._serializeData`: the two names, the unsigned serial, then the four signed numbers. */
  method WriteSOA(w: DnsWriter, d: RData) returns (ok: bool)
    requires w.Valid() && d.SOA?
    modifies w, w.base, w.base.buf
    ensures w.Valid() && w.base.buf.Length >= old(w.base.buf.Length)
    ensures w.base.buf != old(w.base.buf) ==> fresh(w.base.buf)
    ensures var e := EncodeRData(old(w.names), old(w.base.length), d);
            ok ==> e.Some? && w.names == e.value.names &&
                   Appends(old(w.base.buf[..]), old(w.base.length), w.base.buf[..], w.base.length, e.value.bytes)
    ensures var e := EncodeRData(old(w.names), old(w.base.length), d);
            e.Some? && old(w.base.length) + |e.value.bytes| <= old(w.base.buf.Length) ==> ok
  {
    ghost var b0, n0, names0 := w.base.buf[..], w.base.length, w.names;
    ghost var e := EncodeRData(names0, n0, d);
    if e.Some? {
      ghost var em, er, tail, mid := SOAParts(names0, n0, d, e.value);
    }
    ok := w.WriteName(d.mname);
    if !ok {
      return;
    }
    ghost var em := EncodeName(names0, n0, d.mname).value;
    ghost var b1, n1 := w.base.buf[..], w.base.length;
    ok := w.WriteName(d.rname);
    if !ok {
      return;
    }
    ghost var er := EncodeName(em.names, n1, d.rname).value;
    ghost var b2, n2 := w.base.buf[..], w.base.length;
    AppendsTrans(b0, n0, b1, n1, b2, n2, em.bytes, er.bytes);
    ok := WriteSOANumbers(w.base, d);
    if !ok {
      return;
    }
    ghost var tail := SOANumbers(d.serial, d.refresh, d.retry, d.expire, d.minimum);
    AppendsTrans(b0, n0, b2, n2, w.base.buf[..], w.base.length, em.bytes + er.bytes, tail);
    AppendAssoc(em.bytes, er.bytes, tail);
    SOAEncoded(names0, n0, d, em, er, n1);
  }

  /** The five numbers of an SOA payload: `writeUInt32BE(serial)`, then `writeInt32BE` of the other four. */
  method WriteSOANumbers(wr: BufferWriter, d: RData) returns (ok: bool)
    requires wr.Valid() && d.SOA?
    modifies wr, wr.buf
    ensures wr.Valid() && wr.buf == old(wr.buf)
    ensures ok ==> U32(d.serial) && I32(d.refresh) && I32(d.retry) && I32(d.expire) && I32(d.minimum)
    ensures ok ==> Appends(old(wr.buf[..]), old(wr.length), wr.buf[..], wr.length,
                           SOANumbers(d.serial, d.refresh, d.retry, d.expire, d.minimum))
    ensures (U32(d.serial) && I32(d.refresh) && I32(d.retry) && I32(d.expire) && I32(d.minimum) &&
             old(wr.length) + 20 <= wr.buf.Length) ==> ok
  {
    ghost var b0, n0 := wr.buf[..], wr.length;
    ok := wr.WriteUInt32BE(d.serial);
    if !ok {
      return;
    }
    ghost var b1, n1 := wr.buf[..], wr.length;
    ok := wr.WriteInt32BE(d.refresh);
    if !ok {
      return;
    }
    AppendsTrans(b0, n0, b1, n1, wr.buf[..], wr.length, BE32(d.serial), Int32BE(d.refresh));
    ghost var b2, n2 := wr.buf[..], wr.length;
    ok := wr.WriteInt32BE(d.retry);
    if !ok {
      return;
    }
    AppendsTrans(b0, n0, b2, n2, wr.buf[..], wr.length, BE32(d.serial) + Int32BE(d.refresh), Int32BE(d.retry));
    ghost var b3, n3 := wr.buf[..], wr.length;
    ok := wr.WriteInt32BE(d.expire);
    if !ok {
      return;
    }
    AppendsTrans(b0, n0, b3, n3, wr.buf[..], wr.length,
                 BE32(d.serial) + Int32BE(d.refresh) + Int32BE(d.retry), Int32BE(d.expire));
    ghost var b4, n4 := wr.buf[..], wr.length;
    ok := wr.WriteInt32BE(d.minimum);
    if !ok {
      return;
    }
    AppendsTrans(b0, n0, b4, n4, wr.buf[..], wr.length,
                 BE32(d.serial) + Int32BE(d.refresh) + Int32BE(d.retry) + Int32BE(d.expire), Int32BE(d.minimum));
  }

  /** `_serializeData` of the record's class: the raw bytes, the address, the name, or the SOA fields. */
  method WriteRData(w: DnsWriter, d: RData) returns (ok: bool)
    requires w.Valid()
    modifies w, w.base, w.base.buf
    ensures w.Valid() && w.base.buf.Length >= old(w.base.buf.Length)
    ensures w.base.buf != old(w.base.buf) ==> fresh(w.base.buf)
    ensures var e := EncodeRData(old(w.names), old(w.base.length), d);
            ok ==> e.Some? && w.names == e.value.names &&
                   Appends(old(w.base.buf[..]), old(w.base.length), w.base.buf[..], w.base.length, e.value.bytes)
    ensures var e := EncodeRData(old(w.names), old(w.base.length), d);
            e.Some? && old(w.base.length) + |e.value.bytes| <= old(w.base.buf.Length) ==> ok
  {
    match d
    case Raw(bytes) =>
      ok := w.base.WriteBuffer(bytes);
    case A(address) =>
      ok := WriteAddress(w.base, address);
    case NS(n) =>
      ok := w.WriteName(n);
    case CName(n) =>
      ok := w.WriteName(n);
    case SOA(_, _, _, _, _, _, _) =>
      ok := WriteSOA(w, d);
  }

  /** `DNSQuestion._serialize`: the name, then type and class as 16-bit numbers. */
  method WriteQuestion(w: DnsWriter, q: Question) returns (ok: bool)
    requires w.Valid()
    modifies w, w.base, w.base.buf
    ensures w.Valid() && w.base.buf.Length >= old(w.base.buf.Length)
    ensures w.base.buf != old(w.base.buf) ==> fresh(w.base.buf)
    ensures var e := EncodeQuestion(old(w.names), old(w.base.length), q);
            ok ==> e.Some? && w.names == e.value.names &&
                   Appends(old(w.base.buf[..]), old(w.base.length), w.base.buf[..], w.base.length, e.value.bytes)
    ensures var e := EncodeQuestion(old(w.names), old(w.base.length), q);
            e.Some? && old(w.base.length) + |e.value.bytes| <= old(w.base.buf.Length) ==> ok
  {
    ghost var b0, n0, names0 := w.base.buf[..], w.base.length, w.names;
    ghost var e := EncodeQuestion(names0, n0, q);
    if e.Some? {
      ghost var n', at' := QuestionParts(names0, n0, q, e.value);
    }
    ok := w.WriteName(q.qname);
    if !ok {
      return;
    }
    ghost var n := EncodeName(names0, n0, q.qname).value;
    ghost var b1, n1 := w.base.buf[..], w.base.length;
    ok := w.base.WriteUInt16BE(q.qtype);
    if !ok {
      return;
    }
    ghost var b2, n2 := w.base.buf[..], w.base.length;
    AppendsTrans(b0, n0, b1, n1, b2, n2, n.bytes, BE16(q.qtype));
    ok := w.base.WriteUInt16BE(q.qclass);
    if !ok {
      return;
    }
    AppendsTrans(b0, n0, b2, n2, w.base.buf[..], w.base.length, n.bytes + BE16(q.qtype), BE16(q.qclass));
  }

  /** The three numbers after a record's name: type and class as 16-bit numbers, the TTL as a signed 32-bit one. */
  method WriteRecordHead(wr: BufferWriter, rr: ResourceRecord) returns (ok: bool)
    requires wr.Valid()
    modifies wr, wr.buf
    ensures wr.Valid() && wr.buf == old(wr.buf)
    ensures ok ==> U16(rr.rtype) && U16(rr.rclass) && I32(rr.ttl)
    ensures ok ==> Appends(old(wr.buf[..]), old(wr.length), wr.buf[..], wr.length,
                           BE16(rr.rtype) + BE16(rr.rclass) + Int32BE(rr.ttl))
    ensures U16(rr.rtype) && U16(rr.rclass) && I32(rr.ttl) && old(wr.length) + 8 <= wr.buf.Length ==> ok
  {
    ghost var b0, n0 := wr.buf[..], wr.length;
    ok := wr.WriteUInt16BE(rr.rtype);
    if !ok {
      return;
    }
    ghost var b1, n1 := wr.buf[..], wr.length;
    ok := wr.WriteUInt16BE(rr.rclass);
    if !ok {
      return;
    }
    AppendsTrans(b0, n0, b1, n1, wr.buf[..], wr.length, BE16(rr.rtype), BE16(rr.rclass));
    ghost var b2, n2 := wr.buf[..], wr.length;
    ok := wr.WriteInt32BE(rr.ttl);
    if !ok {
      return;
    }
    AppendsTrans(b0, n0, b2, n2, wr.buf[..], wr.length, BE16(rr.rtype) + BE16(rr.rclass), Int32BE(rr.ttl));
  }

  /**
   * A record written as its name (from `b0` to `b1`) and then the rest (from
   * `b1` to `b2`) is the record appended to `b0`, with the table the rest leaves.
   */
  lemma RecordWritten(names0: map<Text, nat>, n0: nat, rr: ResourceRecord, n: Emitted,
                      b0: seq<byte>, b1: seq<byte>, n1: nat, names1: map<Text, nat>, b2: seq<byte>, n2: nat, names2: map<Text, nat>)
    requires EncodeName(names0, n0, rr.name) == Some(n) && Appends(b0, n0, b1, n1, n.bytes) && names1 == n.names
    requires var d := EncodeRData(names1, n1 + 10, rr.data);
             U16(rr.rtype) && U16(rr.rclass) && I32(rr.ttl) && d.Some? && U16(|d.value.bytes|) &&
             names2 == d.value.names &&
             Appends(b1, n1, b2, n2, FixedFields(rr.rtype, rr.rclass, rr.ttl, |d.value.bytes|) + d.value.bytes)
    ensures var e := EncodeRecord(names0, n0, rr);
            e.Some? && names2 == e.value.names && Appends(b0, n0, b2, n2, e.value.bytes)
  {
    var d := EncodeRData(n.names, n1 + 10, rr.data).value;
    var rest := FixedFields(rr.rtype, rr.rclass, rr.ttl, |d.bytes|) + d.bytes;
    AppendsTrans(b0, n0, b1, n1, b2, n2, n.bytes, rest);
    assert After(n0, n) == n1;
  }

  /** The sizes of an encodable record: its name, ten bytes of fixed fields, and its payload. */
  lemma RecordSize(names: map<Text, nat>, pos: nat, rr: ResourceRecord, e: Emitted) returns (n: Emitted, d: Emitted, at: nat)
    requires EncodeRecord(names, pos, rr) == Some(e)
    ensures EncodeName(names, pos, rr.name) == Some(n) && at == pos + |n.bytes|
    ensures U16(rr.rtype) && U16(rr.rclass) && I32(rr.ttl)
    ensures EncodeRData(n.names, at + 10, rr.data) == Some(d) && U16(|d.bytes|)
    ensures |e.bytes| == |n.bytes| + 10 + |d.bytes|
  {
    n := RecordName(names, pos, rr, e);
    d, at := RecordPayload(n, pos, rr, e);
  }

  /**
   * A payload preceded by its length: two bytes skipped by moving `_length`,
   * the payload, then the payload length written back into the two skipped
   * bytes before `_length` is moved to the end.
   */
  method WriteSized(w: DnsWriter, data: RData) returns (ok: bool)
    requires w.Valid()
    modifies w, w.base, w.base.buf
    ensures w.Valid() && w.base.buf.Length >= old(w.base.buf.Length)
    ensures w.base.buf != old(w.base.buf) ==> fresh(w.base.buf)
    ensures var d := EncodeRData(old(w.names), old(w.base.length) + 2, data);
            ok ==> d.Some? && U16(|d.value.bytes|) && w.names == d.value.names &&
                   Appends(old(w.base.buf[..]), old(w.base.length), w.base.buf[..], w.base.length,
                           BE16(|d.value.bytes|) + d.value.bytes)
    ensures var d := EncodeRData(old(w.names), old(w.base.length) + 2, data);
            (d.Some? && U16(|d.value.bytes|) && old(w.base.length) + 2 + |d.value.bytes| <= old(w.base.buf.Length)) ==> ok
  {
    var wr := w.base;
    ghost var b0, names0 := wr.buf[..], w.names;
    var ptr := wr.length;
    ghost var e := EncodeRData(names0, ptr + 2, data);
    Skip(wr, 2);
    assert wr.buf[..] == b0 && wr.length == ptr + 2;
    ok := WriteRData(w, data);
    if !ok {
      return;
    }
    assert e.Some? && w.names == e.value.names;
    assert Appends(b0, ptr + 2, wr.buf[..], wr.length, e.value.bytes);
    ok := PatchLength(wr, ptr, b0, e.value.bytes);
  }

  /**
   * With `bytes` written after two skipped bytes at `ptr`, write their
   * length into the skipped bytes: the result is the length and the bytes,
   * appended at `ptr`.
   */
  method PatchLength(wr: BufferWriter, ptr: nat, ghost b0: seq<byte>, ghost bytes: seq<byte>) returns (ok: bool)
    requires wr.Valid() && Appends(b0, ptr + 2, wr.buf[..], wr.length, bytes)
    modifies wr, wr.buf
    ensures wr.Valid() && wr.buf == old(wr.buf)
    ensures ok <==> U16(|bytes|)
    ensures ok ==> Appends(b0, ptr, wr.buf[..], wr.length, BE16(|bytes|) + bytes)
  {
    ghost var b1 := wr.buf[..];
    var newptr := wr.length;
    assert newptr - ptr - 2 == |bytes|;
    ok := WriteLengthAt(wr, ptr, newptr - ptr - 2);
    if !ok {
      return;
    }
    ghost var b2 := wr.buf[..];
    assert b2 == Splice(b1, ptr, BE16(|bytes|)) && wr.length == newptr;
    Backpatched(b0, ptr, b1, newptr, bytes, BE16(|bytes|), b2);
  }

  /** `_length += n`: the writer moves on without writing; its bytes stay as they are. */
  method Skip(wr: BufferWriter, n: nat)
    modifies wr
    ensures wr.length == old(wr.length) + n && wr.buf == old(wr.buf) && wr.buf[..] == old(wr.buf[..])
  {
    wr.length := wr.length + n;
  }

  /**
   * `_length` moved back to `ptr`, the 16-bit `len` written there, and
   * `_length` moved forward again to where it was; when the write throws,
   * `_length` stays at `ptr`.
   */
  method WriteLengthAt(wr: BufferWriter, ptr: nat, len: int) returns (ok: bool)
    requires wr.Valid() && ptr + 2 <= wr.length <= wr.buf.Length
    modifies wr, wr.buf
    ensures wr.Valid() && wr.buf == old(wr.buf)
    ensures ok <==> 0 <= len < Two16
    ensures ok ==> wr.length == old(wr.length) && wr.buf[..] == Splice(old(wr.buf[..]), ptr, BE16(len))
    ensures !ok ==> wr.length == ptr && wr.buf[..] == old(wr.buf[..])
  {
    var newptr := wr.length;
    wr.length := ptr;
    ok := wr.WriteUInt16BE(len);
    if ok {
      wr.length := newptr;
    }
  }

  /** `DNSRecord._serialize` after the name: the three numbers, then the payload with its length. */
  method WriteRecordData(w: DnsWriter, rr: ResourceRecord) returns (ok: bool)
    requires w.Valid()
    modifies w, w.base, w.base.buf
    ensures w.Valid() && w.base.buf.Length >= old(w.base.buf.Length)
    ensures w.base.buf != old(w.base.buf) ==> fresh(w.base.buf)
    ensures var d := EncodeRData(old(w.names), old(w.base.length) + 10, rr.data);
            ok ==> U16(rr.rtype) && U16(rr.rclass) && I32(rr.ttl) && d.Some? && U16(|d.value.bytes|) &&
                   w.names == d.value.names &&
                   Appends(old(w.base.buf[..]), old(w.base.length), w.base.buf[..], w.base.length,
                           FixedFields(rr.rtype, rr.rclass, rr.ttl, |d.value.bytes|) + d.value.bytes)
    ensures var d := EncodeRData(old(w.names), old(w.base.length) + 10, rr.data);
            (U16(rr.rtype) && U16(rr.rclass) && I32(rr.ttl) && d.Some? && U16(|d.value.bytes|) &&
             old(w.base.length) + 10 + |d.value.bytes| <= old(w.base.buf.Length)) ==> ok
  {
    var wr := w.base;
    ghost var b0, n0, names0 := wr.buf[..], wr.length, w.names;
    ok := WriteRecordHead(wr, rr);
    if !ok {
      return;
    }
    ghost var head := BE16(rr.rtype) + BE16(rr.rclass) + Int32BE(rr.ttl);
    ghost var b1, n1 := wr.buf[..], wr.length;
    ok := WriteSized(w, rr.data);
    if !ok {
      return;
    }
    ghost var d := EncodeRData(names0, n1 + 2, rr.data).value;
    AppendsTrans(b0, n0, b1, n1, wr.buf[..], wr.length, head, BE16(|d.bytes|) + d.bytes);
    AppendAssoc(head, BE16(|d.bytes|), d.bytes);
  }

  /** `DNSRecord._serialize`: the name, then the rest of the record. */
  method WriteRecord(w: DnsWriter, rr: ResourceRecord) returns (ok: bool)
    requires w.Valid()
    modifies w, w.base, w.base.buf
    ensures w.Valid() && w.base.buf.Length >= old(w.base.buf.Length)
    ensures w.base.buf != old(w.base.buf) ==> fresh(w.base.buf)
    ensures var e := EncodeRecord(old(w.names), old(w.base.length), rr);
            ok ==> e.Some? && w.names == e.value.names &&
                   Appends(old(w.base.buf[..]), old(w.base.length), w.base.buf[..], w.base.length, e.value.bytes)
    ensures var e := EncodeRecord(old(w.names), old(w.base.length), rr);
            e.Some? && old(w.base.length) + |e.value.bytes| <= old(w.base.buf.Length) ==> ok
  {
    var wr := w.base;
    ghost var b0, n0, names0 := wr.buf[..], wr.length, w.names;
    ok := w.WriteName(rr.name);
    if !ok {
      ghost var e := EncodeRecord(names0, n0, rr);
      if e.Some? {
        ghost var n', d', at' := RecordSize(names0, n0, rr, e.value);
      }
      return;
    }
    ghost var n := EncodeName(names0, n0, rr.name).value;
    ghost var b1, n1, names1 := wr.buf[..], wr.length, w.names;
    ok := WriteRecordData(w, rr);
    if !ok {
      ghost var e := EncodeRecord(names0, n0, rr);
      if e.Some? {
        ghost var n', d', at' := RecordSize(names0, n0, rr, e.value);
      }
      return;
    }
    RecordWritten(names0, n0, rr, n, b0, b1, n1, names1, wr.buf[..], wr.length, w.names);
  }

  // ---------------------------------------------------------------------------
  // The header and the sections

  /** The four section counts, each written as an unsigned 16-bit value. */
  method WriteCounts(wr: BufferWriter, p: Packet) returns (ok: bool)
    requires wr.Valid()
    modifies wr, wr.buf
    ensures wr.Valid() && wr.buf == old(wr.buf)
    ensures ok <==> U16(|p.questions|) && U16(|p.answers|) && U16(|p.authorities|) && U16(|p.additionals|) &&
                    old(wr.length) + 8 <= wr.buf.Length
    ensures ok ==> U16(|p.questions|) && U16(|p.answers|) && U16(|p.authorities|) && U16(|p.additionals|) &&
                   Appends(old(wr.buf[..]), old(wr.length), wr.buf[..], wr.length,
                           BE16(|p.questions|) + BE16(|p.answers|) + BE16(|p.authorities|) + BE16(|p.additionals|))
  {
    ghost var b0, n0 := wr.buf[..], wr.length;
    ok := wr.WriteUInt16BE(|p.questions|);
    if !ok {
      return;
    }
    ghost var b1, n1 := wr.buf[..], wr.length;
    ok := wr.WriteUInt16BE(|p.answers|);
    if !ok {
      return;
    }
    AppendsTrans(b0, n0, b1, n1, wr.buf[..], wr.length, BE16(|p.questions|), BE16(|p.answers|));
    ghost var b2, n2 := wr.buf[..], wr.length;
    ok := wr.WriteUInt16BE(|p.authorities|);
    if !ok {
      return;
    }
    AppendsTrans(b0, n0, b2, n2, wr.buf[..], wr.length, BE16(|p.questions|) + BE16(|p.answers|), BE16(|p.authorities|));
    ghost var b3, n3 := wr.buf[..], wr.length;
    ok := wr.WriteUInt16BE(|p.additionals|);
    if !ok {
      return;
    }
    AppendsTrans(b0, n0, b3, n3, wr.buf[..], wr.length,
                 BE16(|p.questions|) + BE16(|p.answers|) + BE16(|p.authorities|), BE16(|p.additionals|));
  }

  /**
   * The flag word as `_serialize` builds it: QR, the opcode shifted by 11,
   * AA, TC, RD and RA or-ed in one after the other, the response code last.
   */
  method FlagsOf(f: Flags) returns (flags: int)
    ensures flags == FlagsWord(f)
    ensures 0 <= f.opcode < 16 && 0 <= f.responseCode < 16 ==> U16(flags) && DecodeFlags(flags) == f
  {
    flags := 0;
    if f.isResponse {
      flags := JsOr(flags, 0x8000);
    }
    flags := JsOr(flags, JsShl(f.opcode, 11));
    if f.authoritative {
      flags := JsOr(flags, 0x0400);
    }
    if f.truncation {
      flags := JsOr(flags, 0x0200);
    }
    if f.recursionDesired {
      flags := JsOr(flags, 0x0100);
    }
    if f.recursionAvailable {
      flags := JsOr(flags, 0x0080);
    }
    flags := JsOr(flags, f.responseCode);
    if 0 <= f.opcode < 16 && 0 <= f.responseCode < 16 {
      FlagsRoundTrip(f);
    }
  }

  /** The header bytes, once the id, the flag word and the four counts are known to be 16-bit values. */
  lemma HeaderBytes(p: Packet, flags: int)
    requires flags == FlagsWord(p.flags) && U16(p.id) && U16(flags)
    requires U16(|p.questions|) && U16(|p.answers|) && U16(|p.authorities|) && U16(|p.additionals|)
    ensures EncodeHeader(p) == Some(BE16(p.id) + BE16(flags) +
                                    (BE16(|p.questions|) + BE16(|p.answers|) + BE16(|p.authorities|) + BE16(|p.additionals|)))
  {
    var c := [BE16(|p.questions|), BE16(|p.answers|), BE16(|p.authorities|), BE16(|p.additionals|)];
    assert BE16(p.id) + BE16(flags) + c[0] + c[1] + c[2] + c[3] == BE16(p.id) + BE16(flags) + (c[0] + c[1] + c[2] + c[3]);
  }

  /**
   * The header as `_serialize` writes it: the id, the flag word built with
   * `|=` one field at a time, then the four counts. It succeeds exactly when
   * every value is an unsigned 16-bit number and the 12 bytes fit.
   */
  method WriteHeader(wr: BufferWriter, p: Packet) returns (ok: bool)
    requires wr.Valid()
    modifies wr, wr.buf
    ensures wr.Valid() && wr.buf == old(wr.buf)
    ensures ok <==> EncodeHeader(p).Some? && old(wr.length) + 12 <= wr.buf.Length
    ensures ok ==> EncodeHeader(p).Some? && Appends(old(wr.buf[..]), old(wr.length), wr.buf[..], wr.length, EncodeHeader(p).value)
  {
    ghost var b0, n0 := wr.buf[..], wr.length;
    ok := wr.WriteUInt16BE(p.id);
    if !ok {
      return;
    }
    var flags := FlagsOf(p.flags);
    ghost var b1, n1 := wr.buf[..], wr.length;
    ok := wr.WriteUInt16BE(flags);
    if !ok {
      return;
    }
    AppendsTrans(b0, n0, b1, n1, wr.buf[..], wr.length, BE16(p.id), BE16(flags));
    ghost var b2, n2 := wr.buf[..], wr.length;
    ok := WriteCounts(wr, p);
    if !ok {
      return;
    }
    ghost var counts := BE16(|p.questions|) + BE16(|p.answers|) + BE16(|p.authorities|) + BE16(|p.additionals|);
    AppendsTrans(b0, n0, b2, n2, wr.buf[..], wr.length, BE16(p.id) + BE16(flags), counts);
    HeaderBytes(p, flags);
  }

  /** The loop over the questions: each one continues where the last ended, with its table. */
  method WriteQuestions(w: DnsWriter, qs: seq<Question>) returns (ok: bool)
    requires w.Valid() && w.base.length <= w.base.buf.Length
    modifies w, w.base, w.base.buf
    ensures w.Valid() && w.base.buf.Length >= old(w.base.buf.Length)
    ensures w.base.buf != old(w.base.buf) ==> fresh(w.base.buf)
    ensures var e := EncodeQuestions(old(w.names), old(w.base.length), qs);
            ok ==> e.Some? && w.names == e.value.names &&
                   Appends(old(w.base.buf[..]), old(w.base.length), w.base.buf[..], w.base.length, e.value.bytes)
    ensures var e := EncodeQuestions(old(w.names), old(w.base.length), qs);
            e.Some? && old(w.base.length) + |e.value.bytes| <= old(w.base.buf.Length) ==> ok
  {
    ghost var b0, n0, names0, cap0 := w.base.buf[..], w.base.length, w.names, w.base.buf.Length;
    ghost var all := EncodeQuestions(names0, n0, qs);
    ghost var acc := Emitted([], names0);
    ghost var done: seq<Question> := [];
    var i := 0;
    while i < |qs|
      invariant 0 <= i <= |qs|
      invariant w.Valid() && w.base.buf.Length >= cap0
      invariant w.base.buf != old(w.base.buf) ==> fresh(w.base.buf)
      invariant done == qs[..i]
      invariant EncodeQuestions(names0, n0, done) == Some(acc)
      invariant w.names == acc.names && w.base.length == After(n0, acc)
      invariant Appends(b0, n0, w.base.buf[..], w.base.length, acc.bytes)
    {
      TakeSnoc(qs, i);
      ghost var b1, n1 := w.base.buf[..], w.base.length;
      ok := WriteQuestion(w, qs[i]);
      if !ok {
        if all.Some? {
          QuestionsNext(names0, n0, qs, i, acc, all.value);
        }
        return;
      }
      ghost var x := EncodeQuestion(acc.names, After(n0, acc), qs[i]).value;
      QuestionsStep(names0, n0, done, qs[i], acc, x);
      done := done + [qs[i]];
      AppendsTrans(b0, n0, b1, n1, w.base.buf[..], w.base.length, acc.bytes, x.bytes);
      acc := Emitted(acc.bytes + x.bytes, x.names);
      i := i + 1;
    }
    assert done == qs;
    ok := true;
  }

  /** The loop over the records of one section. */
  method WriteRecords(w: DnsWriter, rs: seq<ResourceRecord>) returns (ok: bool)
    requires w.Valid() && w.base.length <= w.base.buf.Length
    modifies w, w.base, w.base.buf
    ensures w.Valid() && w.base.buf.Length >= old(w.base.buf.Length)
    ensures w.base.buf != old(w.base.buf) ==> fresh(w.base.buf)
    ensures var e := EncodeRecords(old(w.names), old(w.base.length), rs);
            ok ==> e.Some? && w.names == e.value.names &&
                   Appends(old(w.base.buf[..]), old(w.base.length), w.base.buf[..], w.base.length, e.value.bytes)
    ensures var e := EncodeRecords(old(w.names), old(w.base.length), rs);
            e.Some? && old(w.base.length) + |e.value.bytes| <= old(w.base.buf.Length) ==> ok
  {
    ghost var b0, n0, names0, cap0 := w.base.buf[..], w.base.length, w.names, w.base.buf.Length;
    ghost var all := EncodeRecords(names0, n0, rs);
    ghost var acc := Emitted([], names0);
    ghost var done: seq<ResourceRecord> := [];
    var i := 0;
    while i < |rs|
      invariant 0 <= i <= |rs|
      invariant w.Valid() && w.base.buf.Length >= cap0
      invariant w.base.buf != old(w.base.buf) ==> fresh(w.base.buf)
      invariant done == rs[..i]
      invariant EncodeRecords(names0, n0, done) == Some(acc)
      invariant w.names == acc.names && w.base.length == After(n0, acc)
      invariant Appends(b0, n0, w.base.buf[..], w.base.length, acc.bytes)
    {
      TakeSnoc(rs, i);
      ghost var b1, n1 := w.base.buf[..], w.base.length;
      ok := WriteRecord(w, rs[i]);
      if !ok {
        if all.Some? {
          RecordsNext(names0, n0, rs, i, acc, all.value);
        }
        return;
      }
      ghost var x := EncodeRecord(acc.names, After(n0, acc), rs[i]).value;
      RecordsStep(names0, n0, done, rs[i], acc, x);
      done := done + [rs[i]];
      AppendsTrans(b0, n0, b1, n1, w.base.buf[..], w.base.length, acc.bytes, x.bytes);
      acc := Emitted(acc.bytes + x.bytes, x.names);
      i := i + 1;
    }
    assert done == rs;
    ok := true;
  }

  /** In an encodable message the answers encode, from where the questions end, within the message. */
  lemma AnswersFit(p: Packet, data: seq<byte>, q: Emitted, n1: nat)
    requires EncodePacket(p) == Some(data)
    requires EncodeQuestions(map[], 12, p.questions) == Some(q) && n1 == 12 + |q.bytes|
    ensures var e := EncodeRecords(q.names, n1, p.answers); e.Some? && n1 + |e.value.bytes| <= |data|
  {
    var h, q', an, ns, ar, o1, o2, o3, o4 := PacketParts(p, data);
    assert o1 == n1;
  }

  /** In an encodable message the authorities encode, from where the answers end, within the message. */
  lemma AuthoritiesFit(p: Packet, data: seq<byte>, q: Emitted, n1: nat, an: Emitted, n2: nat)
    requires EncodePacket(p) == Some(data)
    requires EncodeQuestions(map[], 12, p.questions) == Some(q) && n1 == 12 + |q.bytes|
    requires EncodeRecords(q.names, n1, p.answers) == Some(an) && n2 == n1 + |an.bytes|
    ensures var e := EncodeRecords(an.names, n2, p.authorities); e.Some? && n2 + |e.value.bytes| <= |data|
  {
    var h, q', an', ns, ar, o1, o2, o3, o4 := PacketParts(p, data);
    assert o1 == n1;
    assert o2 == n2;
  }

  /** In an encodable message the additionals encode, from where the authorities end, within the message. */
  lemma AdditionalsFit(p: Packet, data: seq<byte>, q: Emitted, n1: nat, an: Emitted, n2: nat, ns: Emitted, n3: nat)
    requires EncodePacket(p) == Some(data)
    requires EncodeQuestions(map[], 12, p.questions) == Some(q) && n1 == 12 + |q.bytes|
    requires EncodeRecords(q.names, n1, p.answers) == Some(an) && n2 == n1 + |an.bytes|
    requires EncodeRecords(an.names, n2, p.authorities) == Some(ns) && n3 == n2 + |ns.bytes|
    ensures var e := EncodeRecords(ns.names, n3, p.additionals); e.Some? && n3 + |e.value.bytes| <= |data|
  {
    var h, q', an', ns', ar, o1, o2, o3, o4 := PacketParts(p, data);
    assert o1 == n1;
    assert o2 == n2;
    assert o3 == n3;
  }

  /** The parts written one after the other, each from where the previous one ended, make up the message. */
  lemma PacketWritten(p: Packet, h: seq<byte>, q: Emitted, n1: nat, an: Emitted, n2: nat, ns: Emitted, n3: nat, ar: Emitted)
    requires EncodeHeader(p) == Some(h)
    requires EncodeQuestions(map[], 12, p.questions) == Some(q) && n1 == 12 + |q.bytes|
    requires EncodeRecords(q.names, n1, p.answers) == Some(an) && n2 == n1 + |an.bytes|
    requires EncodeRecords(an.names, n2, p.authorities) == Some(ns) && n3 == n2 + |ns.bytes|
    requires EncodeRecords(ns.names, n3, p.additionals) == Some(ar)
    ensures EncodePacket(p) == Some(h + q.bytes + an.bytes + ns.bytes + ar.bytes)
  {
    assert After(12, q) == n1;
    assert After(n1, an) == n2;
    assert After(n2, ns) == n3;
  }

  /**
   * `toBuffer()`: a new writer, the header and the four sections written by
   * `_serialize`, and the bytes written so far. Whatever it returns is the
   * encoding of the message; a message that encodes to at most the initial
   * 256 bytes is always written.
   */
  method ToBuffer(p: Packet) returns (r: Option<seq<byte>>)
    ensures r.Some? ==> r == EncodePacket(p)
    ensures EncodePacket(p).Some? && |EncodePacket(p).value| <= InitialCapacity ==> r.Some?
  {
    ghost var whole := EncodePacket(p);
    var w := new DnsWriter();
    var wr := w.base;
    ghost var b0 := wr.buf[..];
    var ok := WriteHeader(wr, p);
    if !ok {
      return None;
    }
    ghost var h := EncodeHeader(p).value;
    ghost var b1, n0 := wr.buf[..], wr.length;
    ok := WriteQuestions(w, p.questions);
    if !ok {
      if whole.Some? {
        var _, _, _, _, _, _, _, _, _ := PacketParts(p, whole.value);
      }
      return None;
    }
    ghost var q := EncodeQuestions(map[], n0, p.questions).value;
    ghost var b2, n1 := wr.buf[..], wr.length;
    AppendsTrans(b0, 0, b1, n0, b2, n1, h, q.bytes);
    ok := WriteRecords(w, p.answers);
    if !ok {
      if whole.Some? {
        AnswersFit(p, whole.value, q, n1);
      }
      return None;
    }
    ghost var an := EncodeRecords(q.names, n1, p.answers).value;
    ghost var b3, n2 := wr.buf[..], wr.length;
    AppendsTrans(b0, 0, b2, n1, b3, n2, h + q.bytes, an.bytes);
    ok := WriteRecords(w, p.authorities);
    if !ok {
      if whole.Some? {
        AuthoritiesFit(p, whole.value, q, n1, an, n2);
      }
      return None;
    }
    ghost var ns := EncodeRecords(an.names, n2, p.authorities).value;
    ghost var b4, n3 := wr.buf[..], wr.length;
    AppendsTrans(b0, 0, b3, n2, b4, n3, h + q.bytes + an.bytes, ns.bytes);
    ok := WriteRecords(w, p.additionals);
    if !ok {
      if whole.Some? {
        AdditionalsFit(p, whole.value, q, n1, an, n2, ns, n3);
      }
      return None;
    }
    ghost var ar := EncodeRecords(ns.names, n3, p.additionals).value;
    AppendsTrans(b0, 0, b4, n3, wr.buf[..], wr.length, h + q.bytes + an.bytes + ns.bytes, ar.bytes);
    PacketWritten(p, h, q, n1, an, n2, ns, n3, ar);
    var bytes := wr.GetBuffer();
    r := Some(bytes);
  }
}
