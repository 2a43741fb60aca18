/**
 * The reading side of `packet.js` and `record.js`: `_deserialize` of
 * questions, records and messages and `_deserializeData` of each record
 * class, as methods on the shared DNS reader. Each returns what the matching
 * decoding function of the message gives and leaves the cursor where that
 * function says, and fails exactly where it fails (the source throws).
 */
module PacketRead {
  import opened Wrappers
  import opened Bytes
  import opened Strings
  import opened Buffer
  import opened NameCodec
  import opened DnsCursor
  import opened Message

  // ---------------------------------------------------------------------------
  // A section read one entry at a time

  /** The entries read so far, followed by what the rest of the section decodes to. */
  function Preceded<T>(done: seq<T>, rest: Option<Decoded<seq<T>>>): (r: Option<Decoded<seq<T>>>)
    ensures r.Some? <==> rest.Some?
    ensures r.Some? ==> r.value.value == done + rest.value.value && r.value.next == rest.value.next
  {
    if rest.None? then None else Some(Decoded(done + rest.value.value, rest.value.next))
  }

  /** Nothing read yet: the section is what the rest decodes to. */
  lemma PrecededByNothing<T>(rest: Option<Decoded<seq<T>>>)
    ensures Preceded([], rest) == rest
  {
    if rest.Some? {
      assert [] + rest.value.value == rest.value.value;
    }
  }

  /** With nothing left to read, the section is what was read, ending at `pos`. */
  lemma PrecededByAll<T>(done: seq<T>, pos: nat)
    ensures Preceded(done, Some(Decoded([], pos))) == Some(Decoded(done, pos))
  {
    assert done + [] == done;
  }

  /** Reading one more question moves it from what is left to what was read. */
  lemma {:induction false} QuestionsStep(data: seq<byte>, pos: nat, n: nat, m: nat, done: seq<Question>)
    requires n == m + 1
    ensures var q := DecodeQuestion(data, pos);
            Preceded(done, DecodeQuestions(data, pos, n)) ==
            if q.None? then None else Preceded(done + [q.value.value], DecodeQuestions(data, q.value.next, m))
  {
    var q := DecodeQuestion(data, pos);
    if q.Some? {
      var rest := DecodeQuestions(data, q.value.next, m);
      if rest.Some? {
        assert done + ([q.value.value] + rest.value.value) == done + [q.value.value] + rest.value.value;
      }
    }
  }

  /** Reading one more record moves it from what is left to what was read. */
  lemma {:induction false} RecordsStep(data: seq<byte>, pos: nat, n: nat, m: nat, done: seq<ResourceRecord>)
    requires n == m + 1
    ensures var rr := DecodeRecord(data, pos);
            Preceded(done, DecodeRecords(data, pos, n)) ==
            if rr.None? then None else Preceded(done + [rr.value.value], DecodeRecords(data, rr.value.next, m))
  {
    var rr := DecodeRecord(data, pos);
    if rr.Some? {
      var rest := DecodeRecords(data, rr.value.next, m);
      if rest.Some? {
        assert done + ([rr.value.value] + rest.value.value) == done + [rr.value.value] + rest.value.value;
      }
    }
  }

  // ---------------------------------------------------------------------------
  // Questions and records

  /** `DNSQuestion._deserialize`: the name, the type, the class. */
  method ReadQuestion(rd: DnsReader) returns (r: Option<Question>)
    modifies rd.base
    ensures var d := DecodeQuestion(rd.base.buf[..], old(rd.base.ptr));
            (r.Some? <==> d.Some?) && (r.Some? ==> r.value == d.value.value && rd.base.ptr == d.value.next)
  {
    var qname := rd.ReadName(rd.base.buf.Length);
    if qname.None? {
      return None;
    }
    var qtype := rd.base.ReadUInt16BE();
    if qtype.None? {
      return None;
    }
    var qclass := rd.base.ReadUInt16BE();
    if qclass.None? {
      return None;
    }
    r := Some(Question(qname.value, qtype.value, qclass.value));
  }

  /**
   * `DNSRecordA._deserializeData`: throws unless the payload is 4 bytes long,
   * then reads the four octets one at a time and joins them with dots.
   */
  method ReadAddress(rd: DnsReader, rdlength: nat, rtype: int) returns (r: Option<RData>)
    requires Registry(rtype) == KindA
    modifies rd.base
    ensures var d := DecodeRData(rd.base.buf[..], old(rd.base.ptr), rdlength, rtype);
            (r.Some? <==> d.Some?) && (r.Some? ==> r.value == d.value.value && rd.base.ptr == d.value.next)
  {
    if rdlength != 4 {
      return None;
    }
    ghost var data, start := rd.base.buf[..], rd.base.ptr;
    var seg: seq<byte> := [];
    var i := 0;
    while i < 4
      invariant 0 <= i <= 4 && rd.base.ptr == start + i && rd.base.buf[..] == data
      invariant |seg| == i && forall k :: 0 <= k < i ==> start + k < |data| && seg[k] == data[start + k]
    {
      var octet := rd.base.ReadUInt8();
      if octet.None? {
        return None;
      }
      seg := seg + [octet.value];
      i := i + 1;
    }
    assert seg[3] == data[start + 3];
    assert seg == data[start..start + 4];
    r := Some(A(DottedQuad(seg)));
  }

  /**
   * `DNSRecordNS._deserializeData` and `DNSRecordCNAME._deserializeData`:
   * a name that must end exactly `rdlength` bytes after where it starts.
   */
  method ReadNameData(rd: DnsReader, rdlength: nat, rtype: int) returns (r: Option<RData>)
    requires Registry(rtype) == KindNS || Registry(rtype) == KindCName
    modifies rd.base
    ensures var d := DecodeRData(rd.base.buf[..], old(rd.base.ptr), rdlength, rtype);
            (r.Some? <==> d.Some?) && (r.Some? ==> r.value == d.value.value && rd.base.ptr == d.value.next)
  {
    var ptr := rd.base.ptr;
    var name := rd.ReadName(rd.base.buf.Length);
    if name.None? {
      return None;
    }
    if ptr + rdlength != rd.base.ptr {
      return None;
    }
    if Registry(rtype) == KindNS {
      r := Some(NS(name.value));
    } else {
      r := Some(CName(name.value));
    }
  }

  /** The five numbers that end an SOA payload: the serial unsigned, the other four signed. */
  method ReadSOANumbers(rd: DnsReader) returns (r: Option<(int, int, int, int, int)>)
    modifies rd.base
    ensures var data, at := rd.base.buf[..], old(rd.base.ptr);
            r.Some? <==> at + 20 <= |data|
    ensures var data, at := rd.base.buf[..], old(rd.base.ptr);
            r.Some? ==> rd.base.ptr == at + 20 &&
                        U32At(data, at) == Some(r.value.0) && I32At(data, at + 4) == Some(r.value.1) &&
                        I32At(data, at + 8) == Some(r.value.2) && I32At(data, at + 12) == Some(r.value.3) &&
                        I32At(data, at + 16) == Some(r.value.4)
  {
    var serial := rd.base.ReadUInt32BE();
    if serial.None? {
      return None;
    }
    var refresh := rd.base.ReadInt32BE();
    if refresh.None? {
      return None;
    }
    var retry := rd.base.ReadInt32BE();
    if retry.None? {
      return None;
    }
    var expire := rd.base.ReadInt32BE();
    if expire.None? {
      return None;
    }
    var minimum := rd.base.ReadInt32BE();
    if minimum.None? {
      return None;
    }
    r := Some((serial.value, refresh.value, retry.value, expire.value, minimum.value));
  }

  /**
   * `DNSRecordSOA._deserializeData`: two names and five numbers, which must
   * end exactly `rdlength` bytes after where the payload starts.
   */
  method ReadSOA(rd: DnsReader, rdlength: nat, rtype: int) returns (r: Option<RData>)
    requires Registry(rtype) == KindSOA
    modifies rd.base
    ensures var d := DecodeRData(rd.base.buf[..], old(rd.base.ptr), rdlength, rtype);
            (r.Some? <==> d.Some?) && (r.Some? ==> r.value == d.value.value && rd.base.ptr == d.value.next)
  {
    var ptr := rd.base.ptr;
    var mname := rd.ReadName(rd.base.buf.Length);
    if mname.None? {
      return None;
    }
    var rname := rd.ReadName(rd.base.buf.Length);
    if rname.None? {
      return None;
    }
    var numbers := ReadSOANumbers(rd);
    if numbers.None? {
      return None;
    }
    if ptr + rdlength != rd.base.ptr {
      return None;
    }
    var (serial, refresh, retry, expire, minimum) := numbers.value;
    r := Some(SOA(mname.value, rname.value, serial, refresh, retry, expire, minimum));
  }

  /**
   * `rec._deserializeData(reader, rdlength)` of the class registered for the
   * type; a type nobody registered keeps `rdlength` raw bytes.
   */
  method ReadRData(rd: DnsReader, rdlength: nat, rtype: int) returns (r: Option<RData>)
    modifies rd.base
    ensures var d := DecodeRData(rd.base.buf[..], old(rd.base.ptr), rdlength, rtype);
            (r.Some? <==> d.Some?) && (r.Some? ==> r.value == d.value.value && rd.base.ptr == d.value.next)
  {
    match Registry(rtype)
    case KindA =>
      r := ReadAddress(rd, rdlength, rtype);
    case KindNS =>
      r := ReadNameData(rd, rdlength, rtype);
    case KindCName =>
      r := ReadNameData(rd, rdlength, rtype);
    case KindSOA =>
      r := ReadSOA(rd, rdlength, rtype);
    case KindRaw =>
      var rdata := rd.base.ReadBuffer(rdlength);
      if rdata.None? {
        return None;
      }
      r := Some(Raw(rdata.value));
  }

  /**
   * `DNSRecord._deserialize`: the name, then the fields after it.
   */
  method ReadRecord(rd: DnsReader) returns (r: Option<ResourceRecord>)
    modifies rd.base
    ensures var d := DecodeRecord(rd.base.buf[..], old(rd.base.ptr));
            (r.Some? <==> d.Some?) && (r.Some? ==> r.value == d.value.value && rd.base.ptr == d.value.next)
  {
    var name := rd.ReadName(rd.base.buf.Length);
    if name.None? {
      return None;
    }
    r := ReadRecordFields(rd, name.value);
  }

  /**
   * The rest of `DNSRecord._deserialize`: the type, which picks the record
   * class, the class, the TTL (a negative one is read as 0, as section 8
   * of RFC 2181 says), the payload length and the payload.
   */
  method ReadRecordFields(rd: DnsReader, name: Text) returns (r: Option<ResourceRecord>)
    modifies rd.base
    ensures var d := DecodeRecordFields(rd.base.buf[..], name, old(rd.base.ptr));
            (r.Some? <==> d.Some?) && (r.Some? ==> r.value == d.value.value && rd.base.ptr == d.value.next)
  {
    var rtype := rd.base.ReadUInt16BE();
    if rtype.None? {
      return None;
    }
    var rclass := rd.base.ReadUInt16BE();
    if rclass.None? {
      return None;
    }
    var ttl := rd.base.ReadInt32BE();
    if ttl.None? {
      return None;
    }
    var t := ttl.value;
    if t < 0 {
      t := 0;
    }
    var rdlength := rd.base.ReadUInt16BE();
    if rdlength.None? {
      return None;
    }
    var data := ReadRData(rd, rdlength.value, rtype.value);
    if data.None? {
      return None;
    }
    r := Some(ResourceRecord(name, rtype.value, rclass.value, t, data.value));
  }

  // ---------------------------------------------------------------------------
  // Sections and the message

  /** The loop that fills `packet.questions`: `count` questions, one after the other. */
  method ReadQuestions(rd: DnsReader, count: nat) returns (r: Option<seq<Question>>)
    modifies rd.base
    ensures var d := DecodeQuestions(rd.base.buf[..], old(rd.base.ptr), count);
            (r.Some? <==> d.Some?) && (r.Some? ==> r.value == d.value.value && rd.base.ptr == d.value.next)
  {
    ghost var data, start := rd.base.buf[..], rd.base.ptr;
    ghost var left := count;
    var qs: seq<Question> := [];
    PrecededByNothing(DecodeQuestions(data, start, count));
    var i := 0;
    while i < count
      invariant 0 <= i <= count && left == count - i && rd.base.buf[..] == data
      invariant DecodeQuestions(data, start, count) == Preceded(qs, DecodeQuestions(data, rd.base.ptr, left))
    {
      ghost var p0, m := rd.base.ptr, left - 1;
      QuestionsStep(data, p0, left, m, qs);
      var q := ReadQuestion(rd);
      assert rd.base.buf[..] == data;
      if q.None? {
        assert DecodeQuestion(data, p0).None?;
        return None;
      }
      ghost var d := DecodeQuestion(data, p0).value;
      assert rd.base.ptr == d.next && q.value == d.value;
      qs := qs + [q.value];
      i := i + 1;
      left := m;
    }
    PrecededByAll(qs, rd.base.ptr);
    r := Some(qs);
  }

  /** The loop that fills one record section: `count` records, one after the other. */
  method ReadRecords(rd: DnsReader, count: nat) returns (r: Option<seq<ResourceRecord>>)
    modifies rd.base
    ensures var d := DecodeRecords(rd.base.buf[..], old(rd.base.ptr), count);
            (r.Some? <==> d.Some?) && (r.Some? ==> r.value == d.value.value && rd.base.ptr == d.value.next)
  {
    ghost var data, start := rd.base.buf[..], rd.base.ptr;
    ghost var left := count;
    var rs: seq<ResourceRecord> := [];
    PrecededByNothing(DecodeRecords(data, start, count));
    var i := 0;
    while i < count
      invariant 0 <= i <= count && left == count - i && rd.base.buf[..] == data
      invariant DecodeRecords(data, start, count) == Preceded(rs, DecodeRecords(data, rd.base.ptr, left))
    {
      ghost var p0, m := rd.base.ptr, left - 1;
      RecordsStep(data, p0, left, m, rs);
      var rr := ReadRecord(rd);
      assert rd.base.buf[..] == data;
      if rr.None? {
        assert DecodeRecord(data, p0).None?;
        return None;
      }
      ghost var d := DecodeRecord(data, p0).value;
      assert rd.base.ptr == d.next && rr.value == d.value;
      rs := rs + [rr.value];
      i := i + 1;
      left := m;
    }
    PrecededByAll(rs, rd.base.ptr);
    r := Some(rs);
  }

  /**
   * `DNSPacket.fromBuffer(buffer)`: the id, the flag word split into its
   * fields, the four counts, then the sections in order. It returns exactly
   * the message `DecodePacket` gives, and fails exactly where that fails.
   */
  method FromBuffer(buffer: array<byte>) returns (r: Option<Packet>)
    ensures r == DecodePacket(buffer[..])
  {
    var rd := new DnsReader(buffer);
    var id := rd.base.ReadUInt16BE();
    if id.None? {
      return None;
    }
    var flags := rd.base.ReadUInt16BE();
    if flags.None? {
      return None;
    }
    var qdcount := rd.base.ReadUInt16BE();
    if qdcount.None? {
      return None;
    }
    var ancount := rd.base.ReadUInt16BE();
    if ancount.None? {
      return None;
    }
    var nscount := rd.base.ReadUInt16BE();
    if nscount.None? {
      return None;
    }
    var arcount := rd.base.ReadUInt16BE();
    if arcount.None? {
      return None;
    }
    var questions := ReadQuestions(rd, qdcount.value);
    if questions.None? {
      return None;
    }
    var answers := ReadRecords(rd, ancount.value);
    if answers.None? {
      return None;
    }
    var authorities := ReadRecords(rd, nscount.value);
    if authorities.None? {
      return None;
    }
    var additionals := ReadRecords(rd, arcount.value);
    if additionals.None? {
      return None;
    }
    r := Some(Packet(id.value, DecodeFlags(flags.value), questions.value, answers.value, authorities.value, additionals.value));
  }
}
