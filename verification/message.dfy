/**
 * DNS messages (section 4.1 of RFC 1035) as the codec lays them out: the
 * header with its flag word, the question section and the three
 * resource-record sections, and the payloads of the A, NS, CNAME and SOA
 * records. Encoders take the compression table and the offset they write
 * at; decoders take the whole message and the offset they read at.
 */
module Message {
  import opened Wrappers
  import opened Bytes
  import opened Strings
  import opened Buffer
  import opened NameCodec
  import opened JsBits

  // ---------------------------------------------------------------------------
  // Entities

  datatype Question = Question(qname: Text, qtype: int, qclass: int)

  /** A record's payload; the variant is the class of the record object. */
  datatype RData =
    | Raw(rdata: seq<byte>)
    | A(address: Text)
    | NS(nameserver: Text)
    | CName(cname: Text)
    | SOA(mname: Text, rname: Text, serial: int, refresh: int, retry: int, expire: int, minimum: int)

  datatype ResourceRecord = ResourceRecord(name: Text, rtype: int, rclass: int, ttl: int, data: RData)

  /** The header fields packed into the second 16-bit word. */
  datatype Flags = Flags(isResponse: bool, opcode: int, authoritative: bool, truncation: bool,
                         recursionDesired: bool, recursionAvailable: bool, responseCode: int)

  datatype Packet = Packet(id: int, flags: Flags, questions: seq<Question>, answers: seq<ResourceRecord>,
                           authorities: seq<ResourceRecord>, additionals: seq<ResourceRecord>)

  /** A decoded value and the offset just past it. */
  datatype Decoded<T> = Decoded(value: T, next: nat)

  // ---------------------------------------------------------------------------
  // Record classes

  /** The record classes: the four registered ones and the plain `DNSRecord`. */
  datatype Kind = KindA | KindNS | KindCName | KindSOA | KindRaw

  /** `type in DNSRecord._registry ? DNSRecord._registry[type] : DNSRecord`. */
  function Registry(rtype: int): Kind
  {
    if rtype == 1 then KindA
    else if rtype == 2 then KindNS
    else if rtype == 5 then KindCName
    else if rtype == 6 then KindSOA
    else KindRaw
  }

  function KindOf(d: RData): Kind
  {
    match d
    case Raw(_) => KindRaw
    case A(_) => KindA
    case NS(_) => KindNS
    case CName(_) => KindCName
    case SOA(_, _, _, _, _, _, _) => KindSOA
  }

  /** Types 1, 2, 5 and 6 are registered, to A, NS, CNAME and SOA, and no other type is. */
  lemma RegistryContents(rtype: int)
    ensures Registry(rtype) == KindA <==> rtype == 1
    ensures Registry(rtype) == KindNS <==> rtype == 2
    ensures Registry(rtype) == KindCName <==> rtype == 5
    ensures Registry(rtype) == KindSOA <==> rtype == 6
    ensures Registry(rtype) == KindRaw <==> rtype !in {1, 2, 5, 6}
  {
  }

  // ---------------------------------------------------------------------------
  // Header flags

  /** `if (on) w |= bit`. */
  function OrIf(w: int, on: bool, bit: int): int
  {
    if on then JsOr(w, bit) else w
  }

  /**
   * The flag word `_serialize` builds with `|=`: QR in bit 15, the opcode
   * shifted left by 11, AA, TC, RD and RA in bits 10 to 7, the response code
   * or-ed in last. Nothing masks the opcode or the response code.
   */
  function FlagsWord(f: Flags): int
  {
    var w0 := OrIf(0, f.isResponse, 0x8000);
    var w1 := JsOr(w0, JsShl(f.opcode, 11));
    var w2 := OrIf(w1, f.authoritative, 0x0400);
    var w3 := OrIf(w2, f.truncation, 0x0200);
    var w4 := OrIf(w3, f.recursionDesired, 0x0100);
    var w5 := OrIf(w4, f.recursionAvailable, 0x0080);
    JsOr(w5, f.responseCode)
  }

  /** The fields `_deserialize` extracts from a flag word read as an unsigned 16-bit value. */
  function DecodeFlags(w: int): (f: Flags)
    requires 0 <= w < Two16
    ensures 0 <= f.opcode < 16 && 0 <= f.responseCode < 16
  {
    Flags((w / 0x8000) % 2 == 1, (w / 0x800) % 16, (w / 0x400) % 2 == 1, (w / 0x200) % 2 == 1,
          (w / 0x100) % 2 == 1, (w / 0x80) % 2 == 1, w % 16)
  }

  function B(b: bool): nat { if b then 1 else 0 }

  /** Or-ing in one bit, `bit = 2^k`, into a multiple `w` of that bit's double. */
  lemma {:induction false} OrIfStep(w: int, m: nat, on: bool, k: nat, bit: nat)
    requires bit == Pow2(k) && w == 2 * m * bit && w + bit < Two31
    ensures OrIf(w, on, bit) == (2 * m + B(on)) * bit
  {
    if on {
      var p := Pow2(k + 1);
      assert p == 2 * bit;
      assert w == m * p;
      JsOrDisjoint(w, m, bit, k + 1, p);
      assert (2 * m + 1) * bit == w + bit;
    }
  }

  /** With opcode and response code below 16 the or-ed fields do not overlap: the word is their sum. */
  lemma {:induction false} FlagsWordValue(f: Flags)
    requires 0 <= f.opcode < 16 && 0 <= f.responseCode < 16
    ensures FlagsWord(f) == B(f.isResponse) * 0x8000 + f.opcode * 0x800 + B(f.authoritative) * 0x400
                            + B(f.truncation) * 0x200 + B(f.recursionDesired) * 0x100
                            + B(f.recursionAvailable) * 0x80 + f.responseCode
  {
    var w1, m1 := HeadValue(f.isResponse, f.opcode);
    var w3, m3 := MiddleValue(w1, m1, f.authoritative, f.truncation);
    TailValue(w3, m3, f.recursionDesired, f.recursionAvailable, f.responseCode);
  }

  /** QR and the opcode: `m1 * 0x800`. */
  lemma HeadValue(qr: bool, opcode: int) returns (w1: int, m1: nat)
    requires 0 <= opcode < 16
    ensures w1 == JsOr(OrIf(0, qr, 0x8000), JsShl(opcode, 11))
    ensures m1 == B(qr) * 16 + opcode && m1 < 32 && w1 == m1 * 0x800
  {
    Pow2Value();
    var w0 := OrIf(0, qr, 0x8000);
    OrIfStep(0, 0, qr, 15, 0x8000);
    var sh := JsShl(opcode, 11);
    assert sh == opcode * 0x800;
    JsOrDisjoint(w0, B(qr), sh, 15, 0x8000);
    w1 := JsOr(w0, sh);
    m1 := B(qr) * 16 + opcode;
  }

  /** AA and TC below a word `m1 * 0x800`: `m3 * 0x200`. */
  lemma MiddleValue(w1: int, m1: nat, aa: bool, tc: bool) returns (w3: int, m3: nat)
    requires m1 < 32 && w1 == m1 * 0x800
    ensures w3 == OrIf(OrIf(w1, aa, 0x0400), tc, 0x0200)
    ensures m3 == (m1 * 2 + B(aa)) * 2 + B(tc) && m3 < 128 && w3 == m3 * 0x200
  {
    Pow2Value();
    var w2 := OrIf(w1, aa, 0x0400);
    OrIfStep(w1, m1, aa, 10, 0x400);
    var m2 := 2 * m1 + B(aa);
    w3 := OrIf(w2, tc, 0x0200);
    OrIfStep(w2, m2, tc, 9, 0x200);
    m3 := 2 * m2 + B(tc);
  }

  /** RD, RA and the response code below a word `m3 * 0x200`. */
  lemma TailValue(w3: int, m3: nat, rd: bool, ra: bool, rc: int)
    requires m3 < 128 && w3 == m3 * 0x200 && 0 <= rc < 16
    ensures JsOr(OrIf(OrIf(w3, rd, 0x0100), ra, 0x0080), rc) == (m3 * 2 + B(rd)) * 0x100 + B(ra) * 0x80 + rc
  {
    Pow2Value();
    var w4 := OrIf(w3, rd, 0x0100);
    OrIfStep(w3, m3, rd, 8, 0x100);
    var m4 := 2 * m3 + B(rd);
    var w5 := OrIf(w4, ra, 0x0080);
    OrIfStep(w4, m4, ra, 7, 0x80);
    var m5 := 2 * m4 + B(ra);
    JsOrDisjoint(w5, m5, rc, 7, 0x80);
  }

  lemma MulBound(k: int, b: int)
    requires b > 0
    ensures k >= 1 ==> k * b >= b
    ensures k <= -1 ==> k * b <= -b
  {
    if k >= 1 {
      assert k * b == (k - 1) * b + b;
    } else if k <= -1 {
      assert k * b == (k + 1) * b - b;
    }
  }

  /** Euclidean division of `x * b + lo` by `b`, for `lo` below `b`. */
  lemma DivMod(x: int, lo: int, b: int)
    requires b > 0 && 0 <= lo < b
    ensures (x * b + lo) / b == x && (x * b + lo) % b == lo
  {
    var q, r := (x * b + lo) / b, (x * b + lo) % b;
    assert (q - x) * b == lo - r;
    MulBound(q - x, b);
  }

  /** Dividing by `a` and then by `c` is dividing by `a * c`. */
  lemma DivDiv(w: int, a: int, c: int)
    requires a > 0 && c > 0
    ensures w / (a * c) == (w / a) / c
  {
    var h, l := w / a, w % a;
    var hh, hl := h / c, h % c;
    assert w == h * a + l;
    assert h == hh * c + hl;
    Regroup(hh, hl, a, c);
    DivMod(hh, hl * a + l, a * c);
  }

  lemma Regroup(hh: int, hl: int, a: int, c: int)
    requires a > 0 && 0 <= hl < c
    ensures (hh * c + hl) * a == hh * (a * c) + hl * a
    ensures 0 <= hl * a <= a * c - a
  {
    assert (hh * c + hl) * a == hh * c * a + hl * a;
    assert hl * a <= (c - 1) * a == a * c - a by {
      MulBound(c - 1 - hl, a);
    }
  }

  /** A field of width `m` at position `b` of a word. */
  lemma Field(w: int, hi: int, f: int, lo: int, b: int, m: int)
    requires b > 0 && m > 0 && 0 <= f < m && 0 <= lo < b && w == (hi * m + f) * b + lo
    ensures (w / b) % m == f
  {
    DivMod(hi * m + f, lo, b);
    DivMod(hi, f, m);
  }

  /**
   * The flags round trip when opcode and response code are below 16; the
   * three Z bits (0x0070) are written as zero.
   */
  lemma {:induction false} FlagsRoundTrip(f: Flags)
    requires 0 <= f.opcode < 16 && 0 <= f.responseCode < 16
    ensures 0 <= FlagsWord(f) < Two16
    ensures DecodeFlags(FlagsWord(f)) == f
    ensures (FlagsWord(f) / 0x10) % 8 == 0
  {
    FlagsWordValue(f);
    FieldsRead(f);
  }

  /** The sum of the fields of `f` at their positions lies in 16 bits and decodes to `f`, with zero Z bits. */
  lemma FieldsRead(f: Flags)
    requires 0 <= f.opcode < 16 && 0 <= f.responseCode < 16
    ensures var w := B(f.isResponse) * 0x8000 + f.opcode * 0x800 + B(f.authoritative) * 0x400
                     + B(f.truncation) * 0x200 + B(f.recursionDesired) * 0x100
                     + B(f.recursionAvailable) * 0x80 + f.responseCode;
            0 <= w < Two16 && DecodeFlags(w) == f && (w / 0x10) % 8 == 0
  {
    var q, o, aa, tc, rd, ra, rc :=
      B(f.isResponse), f.opcode, B(f.authoritative), B(f.truncation), B(f.recursionDesired), B(f.recursionAvailable), f.responseCode;
    var low := rd * 0x100 + ra * 0x80 + rc;
    var w := q * 0x8000 + o * 0x800 + aa * 0x400 + tc * 0x200 + low;
    UpperFields(w, q, o, aa, tc, low);
    LowerFields(w, ((q * 16 + o) * 2 + aa) * 2 + tc, rd, ra, rc);
  }

  /** QR, the opcode, AA and TC read back from a word built from them. */
  lemma UpperFields(w: int, q: int, o: int, aa: int, tc: int, low: int)
    requires 0 <= q < 2 && 0 <= o < 16 && 0 <= aa < 2 && 0 <= tc < 2 && 0 <= low < 0x200
    requires w == q * 0x8000 + o * 0x800 + aa * 0x400 + tc * 0x200 + low
    ensures (w / 0x8000) % 2 == q && (w / 0x800) % 16 == o
    ensures (w / 0x400) % 2 == aa && (w / 0x200) % 2 == tc
  {
    Field(w, 0, q, o * 0x800 + aa * 0x400 + tc * 0x200 + low, 0x8000, 2);
    Field(w, q, o, aa * 0x400 + tc * 0x200 + low, 0x800, 16);
    Field(w, q * 16 + o, aa, tc * 0x200 + low, 0x400, 2);
    Field(w, (q * 16 + o) * 2 + aa, tc, low, 0x200, 2);
  }

  /** RD, RA, the zero Z bits and the response code read back from a word built from them. */
  lemma LowerFields(w: int, hi: int, rd: int, ra: int, rc: int)
    requires 0 <= rd < 2 && 0 <= ra < 2 && 0 <= rc < 16
    requires w == hi * 0x200 + rd * 0x100 + ra * 0x80 + rc
    ensures (w / 0x100) % 2 == rd && (w / 0x80) % 2 == ra
    ensures (w / 0x10) % 8 == 0 && w % 16 == rc
  {
    Field(w, hi, rd, ra * 0x80 + rc, 0x100, 2);
    Field(w, hi * 2 + rd, ra, rc, 0x80, 2);
    Field(w, (hi * 2 + rd) * 2 + ra, 0, rc, 0x10, 8);
    Field(w, ((hi * 2 + rd) * 2 + ra) * 8, rc, 0, 1, 16);
  }

  /** The Z bits are ignored on read: setting any of them decodes to the same flags. */
  lemma {:induction false} ZBitsIgnored(w: int, z: int)
    requires 0 <= w < Two16 && (w / 0x10) % 8 == 0 && 0 <= z < 8
    ensures 0 <= w + z * 0x10 < Two16
    ensures DecodeFlags(w + z * 0x10) == DecodeFlags(w)
  {
    var w' := w + z * 0x10;
    var h, l := w / 0x10, w % 0x10;
    DivMod(h / 8, h % 8, 8);
    assert w == (h / 8) * 0x80 + l;
    assert w' == (h / 8) * 0x80 + (z * 0x10 + l);
    DivMod(h / 8, l, 0x80);
    DivMod(h / 8, z * 0x10 + l, 0x80);
    DivMod(h / 8 * 8 + z, l, 0x10);
    assert w' == (h / 8 * 8 + z) * 0x10 + l;
    FieldsAbove(w, w', 2);
    FieldsAbove(w, w', 4);
    FieldsAbove(w, w', 8);
    FieldsAbove(w, w', 16);
    FieldsAbove(w, w', 256);
  }

  /** Two words that agree above bit 7 agree on every field above bit 7. */
  lemma FieldsAbove(w: int, w': int, c: int)
    requires c > 0 && w / 0x80 == w' / 0x80
    ensures w / (0x80 * c) == w' / (0x80 * c)
  {
    DivDiv(w, 0x80, c);
    DivDiv(w', 0x80, c);
  }

  // ---------------------------------------------------------------------------
  // A records

  /**
   * What `writeUInt8(parseInt(seg))` stores for one segment: the value when it
   * is in 0..255, a failure when it is a number outside that range, and 0
   * when `parseInt` gives NaN (Node's range check does not reject NaN, and a
   * byte array stores NaN as 0).
   */
  function SegmentByte(seg: Text): (r: Option<byte>)
    ensures ParseIntAuto(seg).None? ==> r == Some(0)
    ensures ParseIntAuto(seg).Some? ==> (r.Some? <==> 0 <= ParseIntAuto(seg).value < 0x100)
    ensures ParseIntAuto(seg).Some? && r.Some? ==> r.value == ParseIntAuto(seg).value
  {
    match ParseIntAuto(seg)
    case None => Some(0)
    case Some(v) => if 0 <= v < 0x100 then Some(v) else None
  }

  /** The bytes for a sequence of segments, or None if one of them fails. */
  function SegmentBytes(segs: seq<Text>): (r: Option<seq<byte>>)
    ensures r.Some? <==> forall j :: 0 <= j < |segs| ==> SegmentByte(segs[j]).Some?
    ensures r.Some? ==> |r.value| == |segs| && forall j :: 0 <= j < |segs| ==> SegmentByte(segs[j]) == Some(r.value[j])
    decreases |segs|
  {
    if |segs| == 0 then Some([])
    else
      match SegmentByte(segs[0])
      case None => None
      case Some(b) =>
        var rest := SegmentBytes(segs[1..]);
        if rest.None? then None else Some([b] + rest.value)
  }

  /** The four bytes of an A record's address: it must split into exactly four parts at the dots. */
  function AddressBytes(address: Text): (r: Option<seq<byte>>)
    ensures r.Some? ==> |r.value| == 4
    ensures |Split(address, Dot)| != 4 ==> r.None?
  {
    var parts := Split(address, Dot);
    if |parts| != 4 then None else SegmentBytes(parts)
  }

  /** The canonical decimal numerals of some bytes. */
  function Decimals(bs: seq<byte>): (r: seq<Text>)
    ensures |r| == |bs| && forall i :: 0 <= i < |bs| ==> r[i] == Decimal(bs[i])
  {
    seq(|bs|, i requires 0 <= i < |bs| => Decimal(bs[i]))
  }

  /** `seg.join('.')` for the bytes an A record's payload holds. */
  function DottedQuad(bs: seq<byte>): Text
  {
    Join(Decimals(bs), [Dot])
  }

  /** A canonical numeral has no dot in it. */
  lemma DecimalsDotFree(bs: seq<byte>)
    ensures forall i :: 0 <= i < |bs| ==> Dot !in Decimals(bs)[i]
  {
    forall i, k | 0 <= i < |bs| && 0 <= k < |Decimal(bs[i])|
      ensures Decimal(bs[i])[k] != Dot
    {
      assert DigitValue(Decimal(bs[i])[k]) < 10;
    }
  }

  /**
   * The A round trip: the address decoding produces from four bytes encodes
   * back to those bytes, so an address of four canonical decimals in 0..255
   * survives encoding and decoding.
   */
  lemma {:induction false} AddressRoundTrip(bs: seq<byte>)
    requires |bs| == 4
    ensures AddressBytes(DottedQuad(bs)) == Some(bs)
  {
    var parts := Decimals(bs);
    DecimalsDotFree(bs);
    SplitJoin(parts, Dot);
    forall j | 0 <= j < 4
      ensures SegmentByte(parts[j]) == Some(bs[j])
    {
      ParseDecimal(bs[j]);
    }
    var r := SegmentBytes(parts);
    assert r.value == bs;
  }

  // ---------------------------------------------------------------------------
  // Encoding

  predicate U16(v: int) { 0 <= v < Two16 }

  predicate I32(v: int) { -Two31 <= v < Two31 }

  predicate U32(v: int) { 0 <= v < Two32 }

  /** `DNSQuestion._serialize`: the name, the type, the class. */
  function EncodeQuestion(names: map<Text, nat>, pos: nat, q: Question): (r: Option<Emitted>)
    ensures r.Some? ==> EncodeName(names, pos, q.qname).Some?
    ensures r.Some? ==> U16(q.qtype) && U16(q.qclass)
  {
    var n :- EncodeName(names, pos, q.qname);
    if U16(q.qtype) && U16(q.qclass) then Some(Emitted(n.bytes + BE16(q.qtype) + BE16(q.qclass), n.names))
    else None
  }

  /** `_serializeData` of each record class. */
  function EncodeRData(names: map<Text, nat>, pos: nat, d: RData): (r: Option<Emitted>)
    ensures r.Some? && d.A? ==> |r.value.bytes| == 4
  {
    match d
    case Raw(bytes) => Some(Emitted(bytes, names))
    case A(address) =>
      var bytes :- AddressBytes(address);
      Some(Emitted(bytes, names))
    case NS(n) => EncodeName(names, pos, n)
    case CName(n) => EncodeName(names, pos, n)
    case SOA(m, rn, serial, refresh, retry, expire, minimum) =>
      var em :- EncodeName(names, pos, m);
      var er :- EncodeName(em.names, After(pos, em), rn);
      if U32(serial) && I32(refresh) && I32(retry) && I32(expire) && I32(minimum) then
        Some(Emitted(em.bytes + (er.bytes + SOANumbers(serial, refresh, retry, expire, minimum)), er.names))
      else None
  }

  /** The five numbers after the two names of an SOA payload: serial, refresh, retry, expire, minimum. */
  function SOANumbers(serial: int, refresh: int, retry: int, expire: int, minimum: int): (r: seq<byte>)
    requires U32(serial) && I32(refresh) && I32(retry) && I32(expire) && I32(minimum)
    ensures |r| == 20
  {
    BE32(serial) + Int32BE(refresh) + Int32BE(retry) + Int32BE(expire) + Int32BE(minimum)
  }

  /**
   * `DNSRecord._serialize`: name, type, class, TTL, then a 2-byte length
   * field that is filled in once the payload after it has been written.
   */
  function EncodeRecord(names: map<Text, nat>, pos: nat, rr: ResourceRecord): (r: Option<Emitted>)
  {
    var n :- EncodeName(names, pos, rr.name);
    if U16(rr.rtype) && U16(rr.rclass) && I32(rr.ttl) then EncodeRecordData(n, pos, rr) else None
  }

  /** The fixed fields after the name: type, class, TTL and the payload length. */
  function FixedFields(rtype: int, rclass: int, ttl: int, rdlength: int): (r: seq<byte>)
    requires U16(rtype) && U16(rclass) && I32(ttl) && U16(rdlength)
    ensures |r| == 10
  {
    BE16(rtype) + BE16(rclass) + Int32BE(ttl) + BE16(rdlength)
  }

  /** The rest of a record once its name `n` is written at `pos`: the payload goes 10 bytes after the name. */
  function EncodeRecordData(n: Emitted, pos: nat, rr: ResourceRecord): (r: Option<Emitted>)
    requires U16(rr.rtype) && U16(rr.rclass) && I32(rr.ttl)
  {
    var d :- EncodeRData(n.names, After(pos, n) + 10, rr.data);
    if U16(|d.bytes|) then Some(Emitted(n.bytes + (FixedFields(rr.rtype, rr.rclass, rr.ttl, |d.bytes|) + d.bytes), d.names)) else None
  }

  /** The questions, one after the other, threading the table through. */
  function EncodeQuestions(names: map<Text, nat>, pos: nat, qs: seq<Question>): Option<Emitted>
    decreases |qs|
  {
    if |qs| == 0 then Some(Emitted([], names))
    else
      var e :- EncodeQuestion(names, pos, qs[0]);
      var rest :- EncodeQuestions(e.names, After(pos, e), qs[1..]);
      Some(Emitted(e.bytes + rest.bytes, rest.names))
  }

  /** The records of one section, one after the other, threading the table through. */
  function EncodeRecords(names: map<Text, nat>, pos: nat, rs: seq<ResourceRecord>): Option<Emitted>
    decreases |rs|
  {
    if |rs| == 0 then Some(Emitted([], names))
    else
      var e :- EncodeRecord(names, pos, rs[0]);
      var rest :- EncodeRecords(e.names, After(pos, e), rs[1..]);
      Some(Emitted(e.bytes + rest.bytes, rest.names))
  }

  /** The 12-byte header: id, flags, and the four section counts. */
  function EncodeHeader(p: Packet): (r: Option<seq<byte>>)
    ensures r.Some? ==> |r.value| == 12
  {
    var w := FlagsWord(p.flags);
    if U16(p.id) && U16(w) && U16(|p.questions|) && U16(|p.answers|) && U16(|p.authorities|) && U16(|p.additionals|)
    then Some(BE16(p.id) + BE16(w) + BE16(|p.questions|) + BE16(|p.answers|) + BE16(|p.authorities|) + BE16(|p.additionals|))
    else None
  }

  /** `toBuffer()`: the 12-byte header, then questions, answers, authorities and additionals, with one table from offset 0. */
  function EncodePacket(p: Packet): (r: Option<seq<byte>>)
    ensures r.Some? ==> |r.value| >= 12
  {
    var h :- EncodeHeader(p);
    var q :- EncodeQuestions(map[], 12, p.questions);
    var an :- EncodeRecords(q.names, After(12, q), p.answers);
    var ns :- EncodeRecords(an.names, After(After(12, q), an), p.authorities);
    var ar :- EncodeRecords(ns.names, After(After(After(12, q), an), ns), p.additionals);
    Some(h + q.bytes + an.bytes + ns.bytes + ar.bytes)
  }

  /** The writer's offset once `e` is written from `pos`. */
  function After(pos: nat, e: Emitted): (end: nat)
    ensures end - |e.bytes| == pos
  {
    pos + |e.bytes|
  }

  // ---------------------------------------------------------------------------
  // Decoding

  /**
   * The pointer-nesting budget every name is read with: the message length.
   * A chain of pointers that never revisits an offset has fewer links than
   * the message has bytes, and one that revisits an offset never ends.
   */
  function Fuel(data: seq<byte>): nat
  {
    |data|
  }

  /** `DNSQuestion._deserialize`. */
  function DecodeQuestion(data: seq<byte>, pos: nat): (r: Option<Decoded<Question>>)
    ensures r.Some? ==> pos < r.value.next <= |data|
  {
    var n :- DecodeName(data, pos, Fuel(data));
    var qtype :- U16At(data, n.next);
    var qclass :- U16At(data, n.next + 2);
    Some(Decoded(Question(n.name, qtype, qclass), n.next + 4))
  }

  /**
   * `_deserializeData(reader, rdlength)` of the class the type is registered
   * to: every class fails unless it consumed exactly `rdlength` bytes, the A
   * class before reading anything when `rdlength` is not 4.
   */
  function DecodeRData(data: seq<byte>, pos: nat, rdlength: nat, rtype: int): (r: Option<Decoded<RData>>)
    ensures r.Some? ==> r.value.next == pos + rdlength <= |data|
    ensures r.Some? ==> KindOf(r.value.value) == Registry(rtype)
    ensures Registry(rtype) == KindA && rdlength != 4 ==> r.None?
    ensures Registry(rtype) == KindRaw ==> r == (if pos + rdlength <= |data| then Some(Decoded(Raw(data[pos..pos + rdlength]), pos + rdlength)) else None)
  {
    match Registry(rtype)
    case KindA =>
      if rdlength != 4 then None
      else
        var bs :- BytesAt(data, pos, 4);
        Some(Decoded(A(DottedQuad(bs)), pos + 4))
    case KindNS =>
      var n :- DecodeName(data, pos, Fuel(data));
      if pos + rdlength != n.next then None else Some(Decoded(NS(n.name), n.next))
    case KindCName =>
      var n :- DecodeName(data, pos, Fuel(data));
      if pos + rdlength != n.next then None else Some(Decoded(CName(n.name), n.next))
    case KindSOA =>
      var m :- DecodeName(data, pos, Fuel(data));
      var rn :- DecodeName(data, m.next, Fuel(data));
      var serial :- U32At(data, rn.next);
      var refresh :- I32At(data, rn.next + 4);
      var retry :- I32At(data, rn.next + 8);
      var expire :- I32At(data, rn.next + 12);
      var minimum :- I32At(data, rn.next + 16);
      if pos + rdlength != rn.next + 20 then None
      else Some(Decoded(SOA(m.name, rn.name, serial, refresh, retry, expire, minimum), rn.next + 20))
    case KindRaw =>
      var bs :- BytesAt(data, pos, rdlength);
      Some(Decoded(Raw(bs), pos + rdlength))
  }

  /** `DNSRecord._deserialize`: a negative TTL is read as 0 (section 8 of RFC 2181). */
  function DecodeRecord(data: seq<byte>, pos: nat): (r: Option<Decoded<ResourceRecord>>)
    ensures r.Some? ==> r.value.value.ttl >= 0 && pos < r.value.next <= |data|
    ensures r.Some? ==> KindOf(r.value.value.data) == Registry(r.value.value.rtype)
  {
    var n :- DecodeName(data, pos, Fuel(data));
    DecodeRecordFields(data, n.name, n.next)
  }

  /** The rest of a record after its name, which ends at `at`: type, class, TTL, payload length, payload. */
  function DecodeRecordFields(data: seq<byte>, name: Text, at: nat): (r: Option<Decoded<ResourceRecord>>)
    ensures r.Some? ==> r.value.value.ttl >= 0 && at < r.value.next <= |data|
    ensures r.Some? ==> KindOf(r.value.value.data) == Registry(r.value.value.rtype)
  {
    var rtype :- U16At(data, at);
    var rclass :- U16At(data, at + 2);
    var ttl :- I32At(data, at + 4);
    var rdlength :- U16At(data, at + 8);
    var d :- DecodeRData(data, at + 10, rdlength, rtype);
    Some(Decoded(ResourceRecord(name, rtype, rclass, if ttl < 0 then 0 else ttl, d.value), d.next))
  }

  function DecodeQuestions(data: seq<byte>, pos: nat, count: nat): (r: Option<Decoded<seq<Question>>>)
    ensures r.Some? ==> |r.value.value| == count
    decreases count
  {
    if count == 0 then Some(Decoded([], pos))
    else
      var q :- DecodeQuestion(data, pos);
      var rest :- DecodeQuestions(data, q.next, count - 1);
      Some(Decoded([q.value] + rest.value, rest.next))
  }

  function DecodeRecords(data: seq<byte>, pos: nat, count: nat): (r: Option<Decoded<seq<ResourceRecord>>>)
    ensures r.Some? ==> |r.value.value| == count
    decreases count
  {
    if count == 0 then Some(Decoded([], pos))
    else
      var rr :- DecodeRecord(data, pos);
      var rest :- DecodeRecords(data, rr.next, count - 1);
      Some(Decoded([rr.value] + rest.value, rest.next))
  }

  /** `fromBuffer(buffer)`: bytes after the last record are ignored. */
  function DecodePacket(data: seq<byte>): (r: Option<Packet>)
    ensures r.Some? ==> |data| >= 12
    ensures r.Some? ==> |r.value.questions| == FromBE16(data[4..6]) && |r.value.answers| == FromBE16(data[6..8])
    ensures r.Some? ==> |r.value.authorities| == FromBE16(data[8..10]) && |r.value.additionals| == FromBE16(data[10..12])
  {
    var id :- U16At(data, 0);
    var w :- U16At(data, 2);
    var qdcount :- U16At(data, 4);
    var ancount :- U16At(data, 6);
    var nscount :- U16At(data, 8);
    var arcount :- U16At(data, 10);
    var qs :- DecodeQuestions(data, 12, qdcount);
    var an :- DecodeRecords(data, qs.next, ancount);
    var ns :- DecodeRecords(data, an.next, nscount);
    var ar :- DecodeRecords(data, ns.next, arcount);
    Some(Packet(id, DecodeFlags(w), qs.value, an.value, ns.value, ar.value))
  }
}
