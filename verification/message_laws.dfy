/**
 * What the codec promises about whole messages: a packet that `toBuffer`
 * serializes is read back by `fromBuffer` as the same packet (with a negative
 * TTL read as 0), and a record of an unregistered type keeps its payload
 * byte for byte.
 */
module MessageLaws {
  import opened Wrappers
  import opened Bytes
  import opened Strings
  import opened Buffer
  import opened NameCodec
  import opened Message

  // ---------------------------------------------------------------------------
  // What round-trips

  /**
   * A payload the decoder can give back: its class is the one the type is
   * registered to, an address is the dotted form of the bytes it encodes to,
   * and names are well formed.
   */
  predicate RDataOk(rtype: int, d: RData)
  {
    KindOf(d) == Registry(rtype) &&
    match d
    case Raw(_) => true
    case A(address) => var bs := AddressBytes(address); bs.Some? && DottedQuad(bs.value) == address
    case NS(n) => NameOk(n)
    case CName(n) => NameOk(n)
    case SOA(m, rn, _, _, _, _, _) => NameOk(m) && NameOk(rn)
  }

  predicate QuestionOk(q: Question)
  {
    NameOk(q.qname)
  }

  predicate RecordOk(rr: ResourceRecord)
  {
    NameOk(rr.name) && RDataOk(rr.rtype, rr.data)
  }

  predicate QuestionsOk(qs: seq<Question>)
  {
    |qs| == 0 || (QuestionOk(qs[0]) && QuestionsOk(qs[1..]))
  }

  predicate RecordsOk(rs: seq<ResourceRecord>)
  {
    |rs| == 0 || (RecordOk(rs[0]) && RecordsOk(rs[1..]))
  }

  /** Opcode and response code fit their 4-bit fields, and every name and payload can be read back. */
  predicate PacketOk(p: Packet)
  {
    0 <= p.flags.opcode < 16 && 0 <= p.flags.responseCode < 16 &&
    QuestionsOk(p.questions) && RecordsOk(p.answers) && RecordsOk(p.authorities) && RecordsOk(p.additionals)
  }

  /** The record as it is read back: a negative TTL becomes 0. */
  function Clamped(rr: ResourceRecord): (c: ResourceRecord)
    ensures c.ttl >= 0 && (rr.ttl >= 0 ==> c == rr)
    ensures c.name == rr.name && c.rtype == rr.rtype && c.rclass == rr.rclass && c.data == rr.data
  {
    if rr.ttl < 0 then rr.(ttl := 0) else rr
  }

  function ClampedAll(rs: seq<ResourceRecord>): (cs: seq<ResourceRecord>)
    ensures |cs| == |rs| && forall i :: 0 <= i < |rs| ==> cs[i] == Clamped(rs[i])
  {
    seq(|rs|, i requires 0 <= i < |rs| => Clamped(rs[i]))
  }

  function Normalized(p: Packet): Packet
  {
    p.(answers := ClampedAll(p.answers), authorities := ClampedAll(p.authorities),
       additionals := ClampedAll(p.additionals))
  }

  // ---------------------------------------------------------------------------
  // One entry at a time, inside a message `data`
  //
  // Each lemma assumes a table sound for the bytes before `off` and `data`
  // holding, at `off`, what the encoder emitted there; it concludes that the
  // decoder reads the value back, stops right after it, and that the new
  // table is sound for the bytes up to there.

  /** An encoded name followed by `rest`: the name is read back, and `rest` starts right after it, at `next`. */
  lemma {:induction false} NameThenAt(data: seq<byte>, off: nat, names: map<Text, nat>, name: Text, n: Emitted, rest: seq<byte>, next: nat)
    requires off <= |data| && TableOk(data[..off], names) && NameOk(name)
    requires EncodeName(names, off, name) == Some(n) && HoldsAt(data, off, n.bytes + rest)
    requires next == off + |n.bytes| && next <= PointerRange
    ensures DecodeName(data, off, |data|) == Some(NameRead(name, next))
    ensures next <= |data| && TableOk(data[..next], n.names)
    ensures HoldsAt(data, next, rest)
  {
    HoldsAtSplit(data, off, n.bytes, rest, next);
    NameAt(data, off, names, name, n, next);
  }

  /** An encoded question is read back, ending at `next`. */
  lemma {:induction false} QuestionAt(data: seq<byte>, off: nat, names: map<Text, nat>, q: Question, e: Emitted, next: nat)
    requires off <= |data| && TableOk(data[..off], names) && QuestionOk(q)
    requires EncodeQuestion(names, off, q) == Some(e) && HoldsAt(data, off, e.bytes)
    requires next == off + |e.bytes| && next <= PointerRange
    ensures DecodeQuestion(data, off) == Some(Decoded(q, next))
    ensures next <= |data| && TableOk(data[..next], e.names)
  {
    var n, at := QuestionParts(names, off, q, e);
    NameThenAt(data, off, names, q.qname, n, BE16(q.qtype) + BE16(q.qclass), at);
    HoldsAtSplit(data, at, BE16(q.qtype), BE16(q.qclass), at + 2);
    U16Holds(data, at, q.qtype);
    U16Holds(data, at + 2, q.qclass);
    QuestionDecoded(data, off, q, at, next);
    TablePrefix(data, at, next, n.names);
  }

  /** The name an encoded question starts with. */
  lemma QuestionParts(names: map<Text, nat>, pos: nat, q: Question, e: Emitted) returns (n: Emitted, at: nat)
    requires EncodeQuestion(names, pos, q) == Some(e)
    ensures EncodeName(names, pos, q.qname) == Some(n) && U16(q.qtype) && U16(q.qclass)
    ensures e.bytes == n.bytes + (BE16(q.qtype) + BE16(q.qclass)) && e.names == n.names
    ensures at == pos + |n.bytes| && |e.bytes| == |n.bytes| + 4
  {
    n := EncodeName(names, pos, q.qname).value;
    at := After(pos, n);
  }

  /** `DNSQuestion._deserialize`, once the name and the two numbers are known. */
  lemma QuestionDecoded(data: seq<byte>, pos: nat, q: Question, at: nat, next: nat)
    requires DecodeName(data, pos, |data|) == Some(NameRead(q.qname, at)) && next == at + 4
    requires U16At(data, at) == Some(q.qtype) && U16At(data, at + 2) == Some(q.qclass)
    ensures DecodeQuestion(data, pos) == Some(Decoded(q, next))
  {
  }

  /** An encoded payload, read back with the length its record gives it, ending at `next`. */
  lemma {:induction false} RDataAt(data: seq<byte>, off: nat, names: map<Text, nat>, rtype: int, d: RData, e: Emitted, next: nat)
    requires off <= |data| && TableOk(data[..off], names) && RDataOk(rtype, d)
    requires EncodeRData(names, off, d) == Some(e) && HoldsAt(data, off, e.bytes)
    requires next == off + |e.bytes| && next <= PointerRange
    ensures DecodeRData(data, off, |e.bytes|, rtype) == Some(Decoded(d, next))
    ensures next <= |data| && TableOk(data[..next], e.names)
  {
    if d.Raw? || d.A? {
      BytesDataAt(data, off, names, rtype, d, e, next);
    } else if d.NS? || d.CName? {
      NameDataAt(data, off, names, rtype, d, e, next);
    } else {
      SOAAt(data, off, names, rtype, d, e, next);
    }
  }

  /** The opaque payload of an unregistered type, and the four address bytes of an A record. */
  lemma {:induction false} BytesDataAt(data: seq<byte>, off: nat, names: map<Text, nat>, rtype: int, d: RData, e: Emitted, next: nat)
    requires (d.Raw? || d.A?) && off <= |data| && TableOk(data[..off], names) && RDataOk(rtype, d)
    requires EncodeRData(names, off, d) == Some(e) && HoldsAt(data, off, e.bytes) && next == off + |e.bytes|
    ensures DecodeRData(data, off, |e.bytes|, rtype) == Some(Decoded(d, next))
    ensures next <= |data| && TableOk(data[..next], e.names)
  {
    assert e.names == names;
    assert BytesAt(data, off, |e.bytes|) == Some(e.bytes);
    TablePrefix(data, off, next, names);
  }

  /** The name of an NS or CNAME record. */
  lemma {:induction false} NameDataAt(data: seq<byte>, off: nat, names: map<Text, nat>, rtype: int, d: RData, e: Emitted, next: nat)
    requires (d.NS? || d.CName?) && off <= |data| && TableOk(data[..off], names) && RDataOk(rtype, d)
    requires EncodeRData(names, off, d) == Some(e) && HoldsAt(data, off, e.bytes)
    requires next == off + |e.bytes| && next <= PointerRange
    ensures DecodeRData(data, off, |e.bytes|, rtype) == Some(Decoded(d, next))
    ensures next <= |data| && TableOk(data[..next], e.names)
  {
    var n := if d.NS? then d.nameserver else d.cname;
    NameAt(data, off, names, n, e, next);
  }

  /** The SOA payload: two names, then the five numbers. */
  lemma {:induction false} SOAAt(data: seq<byte>, off: nat, names: map<Text, nat>, rtype: int, d: RData, e: Emitted, next: nat)
    requires d.SOA? && off <= |data| && TableOk(data[..off], names) && RDataOk(rtype, d)
    requires EncodeRData(names, off, d) == Some(e) && HoldsAt(data, off, e.bytes)
    requires next == off + |e.bytes| && next <= PointerRange
    ensures DecodeRData(data, off, |e.bytes|, rtype) == Some(Decoded(d, next))
    ensures next <= |data| && TableOk(data[..next], e.names)
  {
    var em, er, tail, mid := SOAParts(names, off, d, e);
    var at := mid + |er.bytes|;
    SOANamesAt(data, off, names, d.mname, d.rname, em, er, tail, mid, at);
    SOATailAt(data, off, mid, at, rtype, d, tail, er.names, |e.bytes|, next);
  }

  /** The two names of an SOA payload, read back one after the other: the first up to `mid`, the second up to `at`. */
  lemma {:induction false} SOANamesAt(data: seq<byte>, off: nat, names: map<Text, nat>, mname: Text, rname: Text,
                                      em: Emitted, er: Emitted, tail: seq<byte>, mid: nat, at: nat)
    requires off <= |data| && TableOk(data[..off], names) && NameOk(mname) && NameOk(rname)
    requires EncodeName(names, off, mname) == Some(em) && mid == off + |em.bytes|
    requires EncodeName(em.names, mid, rname) == Some(er) && at == mid + |er.bytes|
    requires HoldsAt(data, off, em.bytes + (er.bytes + tail)) && at <= PointerRange
    ensures DecodeName(data, off, |data|) == Some(NameRead(mname, mid))
    ensures DecodeName(data, mid, |data|) == Some(NameRead(rname, at))
    ensures at <= |data| && TableOk(data[..at], er.names) && HoldsAt(data, at, tail)
  {
    NameThenAt(data, off, names, mname, em, er.bytes + tail, mid);
    NameThenAt(data, mid, em.names, rname, er, tail, at);
  }

  /** The parts an encoded SOA payload is made of; the second name is written from `mid`. */
  lemma SOAParts(names: map<Text, nat>, pos: nat, d: RData, e: Emitted) returns (em: Emitted, er: Emitted, tail: seq<byte>, mid: nat)
    requires d.SOA? && EncodeRData(names, pos, d) == Some(e)
    ensures EncodeName(names, pos, d.mname) == Some(em) && mid == pos + |em.bytes|
    ensures EncodeName(em.names, mid, d.rname) == Some(er)
    ensures U32(d.serial) && I32(d.refresh) && I32(d.retry) && I32(d.expire) && I32(d.minimum)
    ensures tail == SOANumbers(d.serial, d.refresh, d.retry, d.expire, d.minimum)
    ensures e.bytes == em.bytes + (er.bytes + tail) && e.names == er.names
    ensures |e.bytes| == |em.bytes| + |er.bytes| + 20
  {
    em := EncodeName(names, pos, d.mname).value;
    mid := After(pos, em);
    er := EncodeName(em.names, mid, d.rname).value;
    tail := SOANumbers(d.serial, d.refresh, d.retry, d.expire, d.minimum);
  }

  /** The SOA payload read back, once its two names are: the five numbers follow them, up to `next`. */
  lemma {:induction false} SOATailAt(data: seq<byte>, pos: nat, mid: nat, at: nat, rtype: int, d: RData,
                                     tail: seq<byte>, names: map<Text, nat>, len: nat, next: nat)
    requires d.SOA? && Registry(rtype) == KindSOA
    requires DecodeName(data, pos, |data|) == Some(NameRead(d.mname, mid))
    requires DecodeName(data, mid, |data|) == Some(NameRead(d.rname, at))
    requires U32(d.serial) && I32(d.refresh) && I32(d.retry) && I32(d.expire) && I32(d.minimum)
    requires tail == SOANumbers(d.serial, d.refresh, d.retry, d.expire, d.minimum)
    requires HoldsAt(data, at, tail) && pos <= at && TableOk(data[..at], names) && next == at + 20 && len == next - pos
    ensures DecodeRData(data, pos, len, rtype) == Some(Decoded(d, next))
    ensures next <= |data| && TableOk(data[..next], names)
  {
    SOAFields(data, at, d.serial, d.refresh, d.retry, d.expire, d.minimum);
    TablePrefix(data, at, next, names);
  }

  /** The five numbers of an SOA payload read back from where they were written. */
  lemma {:induction false} SOAFields(data: seq<byte>, at: nat, serial: int, refresh: int, retry: int, expire: int, minimum: int)
    requires U32(serial) && I32(refresh) && I32(retry) && I32(expire) && I32(minimum)
    requires HoldsAt(data, at, SOANumbers(serial, refresh, retry, expire, minimum))
    ensures U32At(data, at) == Some(serial) && I32At(data, at + 4) == Some(refresh)
    ensures I32At(data, at + 8) == Some(retry) && I32At(data, at + 12) == Some(expire)
    ensures I32At(data, at + 16) == Some(minimum)
  {
    var s0 := BE32(serial);
    var s1 := s0 + Int32BE(refresh);
    var s2 := s1 + Int32BE(retry);
    var s3 := s2 + Int32BE(expire);
    HoldsAtSplit(data, at, s3, Int32BE(minimum), at + 16);
    HoldsAtSplit(data, at, s2, Int32BE(expire), at + 12);
    HoldsAtSplit(data, at, s1, Int32BE(retry), at + 8);
    HoldsAtSplit(data, at, s0, Int32BE(refresh), at + 4);
    U32Holds(data, at, serial);
    I32Holds(data, at + 4, refresh);
    I32Holds(data, at + 8, retry);
    I32Holds(data, at + 12, expire);
    I32Holds(data, at + 16, minimum);
  }

  /** An encoded record is read back, ending at `next`, with a negative TTL read as 0. */
  lemma {:induction false} RecordAt(data: seq<byte>, off: nat, names: map<Text, nat>, rr: ResourceRecord, e: Emitted, next: nat)
    requires off <= |data| && TableOk(data[..off], names) && RecordOk(rr)
    requires EncodeRecord(names, off, rr) == Some(e) && HoldsAt(data, off, e.bytes)
    requires next == off + |e.bytes| && next <= PointerRange
    ensures DecodeRecord(data, off) == Some(Decoded(Clamped(rr), next))
    ensures next <= |data| && TableOk(data[..next], e.names)
  {
    var n := RecordName(names, off, rr, e);
    var d, at := RecordPayload(n, off, rr, e);
    var fixed := FixedFields(rr.rtype, rr.rclass, rr.ttl, |d.bytes|);
    NameThenAt(data, off, names, rr.name, n, fixed + d.bytes, at);
    RecordDataAt(data, off, at, n, rr, d, next);
  }

  /** The name an encoded record starts with. */
  lemma RecordName(names: map<Text, nat>, pos: nat, rr: ResourceRecord, e: Emitted) returns (n: Emitted)
    requires EncodeRecord(names, pos, rr) == Some(e)
    ensures EncodeName(names, pos, rr.name) == Some(n)
    ensures U16(rr.rtype) && U16(rr.rclass) && I32(rr.ttl) && EncodeRecordData(n, pos, rr) == Some(e)
  {
    n := EncodeName(names, pos, rr.name).value;
  }

  /** What follows a record's name, written right after it, is read back, and with the name the whole record. */
  lemma {:induction false} RecordDataAt(data: seq<byte>, off: nat, at: nat, n: Emitted, rr: ResourceRecord, d: Emitted, next: nat)
    requires U16(rr.rtype) && U16(rr.rclass) && I32(rr.ttl) && U16(|d.bytes|) && RDataOk(rr.rtype, rr.data)
    requires EncodeRData(n.names, at + 10, rr.data) == Some(d)
    requires HoldsAt(data, at, FixedFields(rr.rtype, rr.rclass, rr.ttl, |d.bytes|) + d.bytes)
    requires DecodeName(data, off, |data|) == Some(NameRead(rr.name, at))
    requires at <= |data| && TableOk(data[..at], n.names)
    requires next == at + 10 + |d.bytes| && next <= PointerRange
    ensures DecodeRecord(data, off) == Some(Decoded(Clamped(rr), next))
    ensures next <= |data| && TableOk(data[..next], d.names)
  {
    var fixed := FixedFields(rr.rtype, rr.rclass, rr.ttl, |d.bytes|);
    HoldsAtSplit(data, at, fixed, d.bytes, at + 10);
    RecordFields(data, at, rr.rtype, rr.rclass, rr.ttl, |d.bytes|);
    TablePrefix(data, at, at + 10, n.names);
    RDataAt(data, at + 10, n.names, rr.rtype, rr.data, d, next);
    RecordDecoded(data, off, rr, at, d.bytes, next);
  }

  /** The payload an encoded record ends with. */
  lemma RecordPayload(n: Emitted, pos: nat, rr: ResourceRecord, e: Emitted) returns (d: Emitted, at: nat)
    requires U16(rr.rtype) && U16(rr.rclass) && I32(rr.ttl)
    requires EncodeRecordData(n, pos, rr) == Some(e)
    ensures at == pos + |n.bytes| && EncodeRData(n.names, at + 10, rr.data) == Some(d) && U16(|d.bytes|)
    ensures e.bytes == n.bytes + (FixedFields(rr.rtype, rr.rclass, rr.ttl, |d.bytes|) + d.bytes) && e.names == d.names
    ensures |e.bytes| == |n.bytes| + 10 + |d.bytes|
  {
    at := After(pos, n);
    d := EncodeRData(n.names, at + 10, rr.data).value;
  }

  /**
   * Read, then written again, a record of a type nobody registered keeps its
   * payload byte for byte: the payload it is read with is the `rdlength`
   * bytes that end it, right after their length field, and writing the record
   * again, at any offset and with any table under which its name is written,
   * ends with that same length field and those same bytes.
   */
  lemma {:induction false} RawRecordVerbatim(data: seq<byte>, off: nat, names: map<Text, nat>, pos: nat)
    requires DecodeRecord(data, off).Some? && Registry(DecodeRecord(data, off).value.value.rtype) == KindRaw
    ensures var d := DecodeRecord(data, off).value;
            var raw := d.value.data.rdata;
            d.value.data.Raw? && |raw| + 2 <= d.next &&
            data[d.next - |raw|..d.next] == raw && U16At(data, d.next - |raw| - 2) == Some(|raw|)
    ensures var rr := DecodeRecord(data, off).value.value;
            EncodeName(names, pos, rr.name).Some? ==>
              EncodeRecord(names, pos, rr).Some? &&
              var e := EncodeRecord(names, pos, rr).value.bytes;
              |rr.data.rdata| + 2 <= |e| && e[|e| - |rr.data.rdata| - 2..] == BE16(|rr.data.rdata|) + rr.data.rdata
  {
    var n := DecodeName(data, off, Fuel(data)).value;
    var at := n.next;
    var rtype := U16At(data, at).value;
    var rdlength := U16At(data, at + 8).value;
    var d := DecodeRData(data, at + 10, rdlength, rtype).value;
    var rr := DecodeRecord(data, off).value.value;
    assert rr.rtype == rtype && rr.data == d.value && d.value == Raw(data[at + 10..at + 10 + rdlength]);
    assert DecodeRecord(data, off).value.next == at + 10 + rdlength;
    assert U16(rr.rtype) && U16(rr.rclass) && I32(rr.ttl) && U16(|rr.data.rdata|);
    RawPayloadWritten(names, pos, rr);
  }

  /** A record with an opaque payload is written ending in the payload's length and the payload itself. */
  lemma {:induction false} RawPayloadWritten(names: map<Text, nat>, pos: nat, rr: ResourceRecord)
    requires rr.data.Raw? && U16(rr.rtype) && U16(rr.rclass) && I32(rr.ttl) && U16(|rr.data.rdata|)
    ensures EncodeName(names, pos, rr.name).Some? ==>
              EncodeRecord(names, pos, rr).Some? &&
              var e := EncodeRecord(names, pos, rr).value.bytes;
              |rr.data.rdata| + 2 <= |e| && e[|e| - |rr.data.rdata| - 2..] == BE16(|rr.data.rdata|) + rr.data.rdata
  {
    var en := EncodeName(names, pos, rr.name);
    if en.Some? {
      var rdlength := |rr.data.rdata|;
      var e := EncodeRecordData(en.value, pos, rr);
      assert EncodeRData(en.value.names, After(pos, en.value) + 10, rr.data) == Some(Emitted(rr.data.rdata, en.value.names));
      assert e.Some?;
      var fixed := FixedFields(rr.rtype, rr.rclass, rr.ttl, rdlength);
      assert e.value.bytes == en.value.bytes + (fixed + rr.data.rdata);
      assert fixed[8..] == BE16(rdlength);
      assert e.value.bytes[|e.value.bytes| - rdlength - 2..] == fixed[8..] + rr.data.rdata;
    }
  }

  /** The four fixed fields after a record's name read back from where they were written. */
  lemma {:induction false} RecordFields(data: seq<byte>, at: nat, rtype: int, rclass: int, ttl: int, rdlength: int)
    requires U16(rtype) && U16(rclass) && I32(ttl) && U16(rdlength)
    requires HoldsAt(data, at, FixedFields(rtype, rclass, ttl, rdlength))
    ensures U16At(data, at) == Some(rtype) && U16At(data, at + 2) == Some(rclass)
    ensures I32At(data, at + 4) == Some(ttl) && U16At(data, at + 8) == Some(rdlength)
  {
    var s0 := BE16(rtype);
    var s1 := s0 + BE16(rclass);
    var s2 := s1 + Int32BE(ttl);
    HoldsAtSplit(data, at, s2, BE16(rdlength), at + 8);
    HoldsAtSplit(data, at, s1, Int32BE(ttl), at + 4);
    HoldsAtSplit(data, at, s0, BE16(rclass), at + 2);
    U16Holds(data, at, rtype);
    U16Holds(data, at + 2, rclass);
    I32Holds(data, at + 4, ttl);
    U16Holds(data, at + 8, rdlength);
  }

  /** `DNSRecord._deserialize`, once the name, the fixed fields and the payload are known. */
  lemma RecordDecoded(data: seq<byte>, pos: nat, rr: ResourceRecord, at: nat, payload: seq<byte>, next: nat)
    requires DecodeName(data, pos, |data|) == Some(NameRead(rr.name, at)) && next == at + 10 + |payload|
    requires U16At(data, at) == Some(rr.rtype) && U16At(data, at + 2) == Some(rr.rclass)
    requires I32At(data, at + 4) == Some(rr.ttl) && U16At(data, at + 8) == Some(|payload|)
    requires DecodeRData(data, at + 10, |payload|, rr.rtype) == Some(Decoded(rr.data, at + 10 + |payload|))
    ensures DecodeRecord(data, pos) == Some(Decoded(Clamped(rr), next))
  {
  }

  // ---------------------------------------------------------------------------
  // Sections

  /** A question section is read back, `count` questions from where it was written up to `last`. */
  lemma {:induction false} QuestionsAt(data: seq<byte>, off: nat, names: map<Text, nat>, qs: seq<Question>, count: nat,
                                       e: Emitted, last: nat)
    requires count == |qs| && off <= |data| && TableOk(data[..off], names) && QuestionsOk(qs)
    requires EncodeQuestions(names, off, qs) == Some(e) && HoldsAt(data, off, e.bytes)
    requires last == off + |e.bytes| && last <= PointerRange
    ensures DecodeQuestions(data, off, count) == Some(Decoded(qs, last))
    decreases count
  {
    if count != 0 {
      var h, t, mid := QuestionsHead(data, off, names, qs, e);
      QuestionsAt(data, mid, h.names, qs[1..], count - 1, t, last);
      QuestionsDecoded(data, off, qs, count, mid, last);
    }
  }

  /** After a question section the table is sound for everything written up to `last`. */
  lemma {:induction false} QuestionsTable(data: seq<byte>, off: nat, names: map<Text, nat>, qs: seq<Question>, e: Emitted, last: nat)
    requires off <= |data| && TableOk(data[..off], names) && QuestionsOk(qs)
    requires EncodeQuestions(names, off, qs) == Some(e) && HoldsAt(data, off, e.bytes)
    requires last == off + |e.bytes| && last <= PointerRange
    ensures last <= |data| && TableOk(data[..last], e.names)
    decreases |qs|
  {
    if |qs| != 0 {
      var h, t, mid := QuestionsHead(data, off, names, qs, e);
      QuestionsTable(data, mid, h.names, qs[1..], t, last);
    } else {
      TablePrefix(data, off, last, e.names);
    }
  }

  /** The first question of a section read back, and what the rest of the section is read from. */
  lemma {:induction false} QuestionsHead(data: seq<byte>, off: nat, names: map<Text, nat>, qs: seq<Question>, e: Emitted)
      returns (h: Emitted, t: Emitted, mid: nat)
    requires |qs| > 0 && off <= |data| && TableOk(data[..off], names) && QuestionsOk(qs)
    requires EncodeQuestions(names, off, qs) == Some(e) && HoldsAt(data, off, e.bytes)
    requires off + |e.bytes| <= PointerRange
    ensures mid == off + |h.bytes| && mid <= |data| && DecodeQuestion(data, off) == Some(Decoded(qs[0], mid))
    ensures TableOk(data[..mid], h.names) && QuestionsOk(qs[1..])
    ensures EncodeQuestions(h.names, mid, qs[1..]) == Some(t) && HoldsAt(data, mid, t.bytes)
    ensures |e.bytes| == |h.bytes| + |t.bytes| && e.names == t.names
  {
    h, t, mid := QuestionsParts(names, off, qs, e);
    HoldsAtSplit(data, off, h.bytes, t.bytes, mid);
    QuestionAt(data, off, names, qs[0], h, mid);
  }

  /** The first question of an encoded section and the rest, written from `mid`. */
  lemma QuestionsParts(names: map<Text, nat>, pos: nat, qs: seq<Question>, e: Emitted) returns (h: Emitted, t: Emitted, mid: nat)
    requires |qs| > 0 && EncodeQuestions(names, pos, qs) == Some(e)
    ensures mid == pos + |h.bytes| && EncodeQuestion(names, pos, qs[0]) == Some(h)
    ensures EncodeQuestions(h.names, mid, qs[1..]) == Some(t)
    ensures e.bytes == h.bytes + t.bytes && e.names == t.names && |e.bytes| == |h.bytes| + |t.bytes|
  {
    h := EncodeQuestion(names, pos, qs[0]).value;
    mid := After(pos, h);
    t := EncodeQuestions(h.names, mid, qs[1..]).value;
  }

  /** The loop of `fromBuffer` over questions, once the first and the rest are read. */
  lemma QuestionsDecoded(data: seq<byte>, pos: nat, qs: seq<Question>, count: nat, mid: nat, next: nat)
    requires count == |qs| > 0
    requires DecodeQuestion(data, pos) == Some(Decoded(qs[0], mid))
    requires DecodeQuestions(data, mid, count - 1) == Some(Decoded(qs[1..], next))
    ensures DecodeQuestions(data, pos, count) == Some(Decoded(qs, next))
  {
    assert [qs[0]] + qs[1..] == qs;
  }

  /** A record section is read back, `count` records from where it was written up to `last`, negative TTLs as 0. */
  lemma {:induction false} RecordsAt(data: seq<byte>, off: nat, names: map<Text, nat>, rs: seq<ResourceRecord>, count: nat,
                                     e: Emitted, last: nat)
    requires count == |rs| && off <= |data| && TableOk(data[..off], names) && RecordsOk(rs)
    requires EncodeRecords(names, off, rs) == Some(e) && HoldsAt(data, off, e.bytes)
    requires last == off + |e.bytes| && last <= PointerRange
    ensures DecodeRecords(data, off, count) == Some(Decoded(ClampedAll(rs), last))
    decreases count
  {
    if count != 0 {
      var h, t, mid := RecordsHead(data, off, names, rs, e);
      RecordsAt(data, mid, h.names, rs[1..], count - 1, t, last);
      RecordsDecoded(data, off, rs, count, mid, last);
    }
  }

  /** After a record section the table is sound for everything written up to `last`. */
  lemma {:induction false} RecordsTable(data: seq<byte>, off: nat, names: map<Text, nat>, rs: seq<ResourceRecord>, e: Emitted, last: nat)
    requires off <= |data| && TableOk(data[..off], names) && RecordsOk(rs)
    requires EncodeRecords(names, off, rs) == Some(e) && HoldsAt(data, off, e.bytes)
    requires last == off + |e.bytes| && last <= PointerRange
    ensures last <= |data| && TableOk(data[..last], e.names)
    decreases |rs|
  {
    if |rs| != 0 {
      var h, t, mid := RecordsHead(data, off, names, rs, e);
      RecordsTable(data, mid, h.names, rs[1..], t, last);
    } else {
      TablePrefix(data, off, last, e.names);
    }
  }

  /** The first record of a section read back, and what the rest of the section is read from. */
  lemma {:induction false} RecordsHead(data: seq<byte>, off: nat, names: map<Text, nat>, rs: seq<ResourceRecord>, e: Emitted)
      returns (h: Emitted, t: Emitted, mid: nat)
    requires |rs| > 0 && off <= |data| && TableOk(data[..off], names) && RecordsOk(rs)
    requires EncodeRecords(names, off, rs) == Some(e) && HoldsAt(data, off, e.bytes)
    requires off + |e.bytes| <= PointerRange
    ensures mid == off + |h.bytes| && mid <= |data| && DecodeRecord(data, off) == Some(Decoded(Clamped(rs[0]), mid))
    ensures TableOk(data[..mid], h.names) && RecordsOk(rs[1..])
    ensures EncodeRecords(h.names, mid, rs[1..]) == Some(t) && HoldsAt(data, mid, t.bytes)
    ensures |e.bytes| == |h.bytes| + |t.bytes| && e.names == t.names
  {
    h, t, mid := RecordsParts(names, off, rs, e);
    HoldsAtSplit(data, off, h.bytes, t.bytes, mid);
    RecordAt(data, off, names, rs[0], h, mid);
  }

  /** The first record of an encoded section and the rest, written from `mid`. */
  lemma RecordsParts(names: map<Text, nat>, pos: nat, rs: seq<ResourceRecord>, e: Emitted) returns (h: Emitted, t: Emitted, mid: nat)
    requires |rs| > 0 && EncodeRecords(names, pos, rs) == Some(e)
    ensures mid == pos + |h.bytes| && EncodeRecord(names, pos, rs[0]) == Some(h)
    ensures EncodeRecords(h.names, mid, rs[1..]) == Some(t)
    ensures e.bytes == h.bytes + t.bytes && e.names == t.names && |e.bytes| == |h.bytes| + |t.bytes|
  {
    var first := EncodeRecord(names, pos, rs[0]);
    h := first.value;
    mid := After(pos, h);
    var rest := EncodeRecords(h.names, mid, rs[1..]);
    t := rest.value;
    assert e == Emitted(h.bytes + t.bytes, t.names);
  }

  /** The loop of `fromBuffer` over records, once the first and the rest are read. */
  lemma RecordsDecoded(data: seq<byte>, pos: nat, rs: seq<ResourceRecord>, count: nat, mid: nat, next: nat)
    requires count == |rs| > 0
    requires DecodeRecord(data, pos) == Some(Decoded(Clamped(rs[0]), mid))
    requires DecodeRecords(data, mid, count - 1) == Some(Decoded(ClampedAll(rs[1..]), next))
    ensures DecodeRecords(data, pos, count) == Some(Decoded(ClampedAll(rs), next))
  {
    assert [Clamped(rs[0])] + ClampedAll(rs[1..]) == ClampedAll(rs);
  }

  // ---------------------------------------------------------------------------
  // Whole messages

  /** The header's six 16-bit fields read back from the first 12 bytes. */
  lemma {:induction false} HeaderAt(data: seq<byte>, p: Packet, h: seq<byte>)
    requires EncodeHeader(p) == Some(h) && HoldsAt(data, 0, h)
    ensures U16At(data, 0) == Some(p.id) && U16At(data, 2) == Some(FlagsWord(p.flags))
    ensures U16At(data, 4) == Some(|p.questions|) && U16At(data, 6) == Some(|p.answers|)
    ensures U16At(data, 8) == Some(|p.authorities|) && U16At(data, 10) == Some(|p.additionals|)
  {
    var s0 := BE16(p.id);
    var s1 := s0 + BE16(FlagsWord(p.flags));
    var s2 := s1 + BE16(|p.questions|);
    var s3 := s2 + BE16(|p.answers|);
    var s4 := s3 + BE16(|p.authorities|);
    HoldsAtSplit(data, 0, s4, BE16(|p.additionals|), 10);
    HoldsAtSplit(data, 0, s3, BE16(|p.authorities|), 8);
    HoldsAtSplit(data, 0, s2, BE16(|p.answers|), 6);
    HoldsAtSplit(data, 0, s1, BE16(|p.questions|), 4);
    HoldsAtSplit(data, 0, s0, BE16(FlagsWord(p.flags)), 2);
    U16Holds(data, 0, p.id);
    U16Holds(data, 2, FlagsWord(p.flags));
    U16Holds(data, 4, |p.questions|);
    U16Holds(data, 6, |p.answers|);
    U16Holds(data, 8, |p.authorities|);
    U16Holds(data, 10, |p.additionals|);
  }

  /**
   * The parts `toBuffer` concatenates: the header and the four sections, each
   * encoded where the previous one ends (at `o1`, `o2`, `o3`; the message ends at `o4`).
   */
  lemma PacketParts(p: Packet, data: seq<byte>)
      returns (h: seq<byte>, q: Emitted, an: Emitted, ns: Emitted, ar: Emitted, o1: nat, o2: nat, o3: nat, o4: nat)
    requires EncodePacket(p) == Some(data)
    ensures EncodeHeader(p) == Some(h) && |h| == 12
    ensures EncodeQuestions(map[], 12, p.questions) == Some(q) && o1 == 12 + |q.bytes|
    ensures EncodeRecords(q.names, o1, p.answers) == Some(an) && o2 == o1 + |an.bytes|
    ensures EncodeRecords(an.names, o2, p.authorities) == Some(ns) && o3 == o2 + |ns.bytes|
    ensures EncodeRecords(ns.names, o3, p.additionals) == Some(ar) && o4 == o3 + |ar.bytes|
    ensures data == h + q.bytes + an.bytes + ns.bytes + ar.bytes && o4 == |data|
  {
    h := EncodeHeader(p).value;
    q := EncodeQuestions(map[], 12, p.questions).value;
    o1 := After(12, q);
    an := EncodeRecords(q.names, o1, p.answers).value;
    o2 := After(o1, an);
    ns := EncodeRecords(an.names, o2, p.authorities).value;
    o3 := After(o2, ns);
    ar := EncodeRecords(ns.names, o3, p.additionals).value;
    o4 := After(o3, ar);
    assert data == h + q.bytes + an.bytes + ns.bytes + ar.bytes;
  }

  /** Each part of an encoded message sits where the previous one ends. */
  lemma {:induction false} PartsHeld(data: seq<byte>, h: seq<byte>, q: Emitted, an: Emitted, ns: Emitted, ar: Emitted,
                                     o1: nat, o2: nat, o3: nat)
    requires data == h + q.bytes + an.bytes + ns.bytes + ar.bytes && |h| == 12
    requires o1 == 12 + |q.bytes| && o2 == o1 + |an.bytes| && o3 == o2 + |ns.bytes|
    ensures HoldsAt(data, 0, h) && HoldsAt(data, 12, q.bytes) && HoldsAt(data, o1, an.bytes)
    ensures HoldsAt(data, o2, ns.bytes) && HoldsAt(data, o3, ar.bytes)
  {
    var s1 := h + q.bytes;
    var s2 := s1 + an.bytes;
    var s3 := s2 + ns.bytes;
    assert data[0..|data|] == s3 + ar.bytes;
    HoldsAtSplit(data, 0, s3, ar.bytes, o3);
    HoldsAtSplit(data, 0, s2, ns.bytes, o2);
    HoldsAtSplit(data, 0, s1, an.bytes, o1);
    HoldsAtSplit(data, 0, h, q.bytes, 12);
  }

  /** The four sections read back one after the other, with one table shared from offset 0. */
  lemma {:induction false} SectionsAt(data: seq<byte>, p: Packet, q: Emitted, an: Emitted, ns: Emitted, ar: Emitted,
                                      o1: nat, o2: nat, o3: nat, o4: nat)
    requires PacketOk(p) && 12 <= |data| && o4 <= PointerRange
    requires EncodeQuestions(map[], 12, p.questions) == Some(q) && o1 == 12 + |q.bytes|
    requires EncodeRecords(q.names, o1, p.answers) == Some(an) && o2 == o1 + |an.bytes|
    requires EncodeRecords(an.names, o2, p.authorities) == Some(ns) && o3 == o2 + |ns.bytes|
    requires EncodeRecords(ns.names, o3, p.additionals) == Some(ar) && o4 == o3 + |ar.bytes|
    requires HoldsAt(data, 12, q.bytes) && HoldsAt(data, o1, an.bytes)
    requires HoldsAt(data, o2, ns.bytes) && HoldsAt(data, o3, ar.bytes)
    ensures DecodeQuestions(data, 12, |p.questions|) == Some(Decoded(p.questions, o1))
    ensures DecodeRecords(data, o1, |p.answers|) == Some(Decoded(ClampedAll(p.answers), o2))
    ensures DecodeRecords(data, o2, |p.authorities|) == Some(Decoded(ClampedAll(p.authorities), o3))
    ensures DecodeRecords(data, o3, |p.additionals|) == Some(Decoded(ClampedAll(p.additionals), o4))
  {
    assert TableOk(data[..12], map[]);
    QuestionsAt(data, 12, map[], p.questions, |p.questions|, q, o1);
    QuestionsTable(data, 12, map[], p.questions, q, o1);
    RecordsAt(data, o1, q.names, p.answers, |p.answers|, an, o2);
    RecordsTable(data, o1, q.names, p.answers, an, o2);
    RecordsAt(data, o2, an.names, p.authorities, |p.authorities|, ns, o3);
    RecordsTable(data, o2, an.names, p.authorities, ns, o3);
    RecordsAt(data, o3, ns.names, p.additionals, |p.additionals|, ar, o4);
  }

  /**
   * `fromBuffer(toBuffer())`: a packet whose names and payloads can be read
   * back, serialized to at most 16384 bytes so that every offset a pointer may
   * name is in range, is read back as the same packet with negative TTLs as 0.
   */
  lemma {:induction false} PacketRoundTrip(p: Packet, data: seq<byte>)
    requires PacketOk(p) && EncodePacket(p) == Some(data) && |data| <= PointerRange
    ensures DecodePacket(data) == Some(Normalized(p))
  {
    var h, q, an, ns, ar, o1, o2, o3, o4 := PacketParts(p, data);
    PartsHeld(data, h, q, an, ns, ar, o1, o2, o3);
    HeaderAt(data, p, h);
    SectionsAt(data, p, q, an, ns, ar, o1, o2, o3, o4);
    FlagsRoundTrip(p.flags);
  }
}
