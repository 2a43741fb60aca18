/**
 * Textual IP addresses: `IPv4.textToBits` turns dotted-decimal text into its
 * four numbers, and `IPv6.textToBits` turns colon-separated hexadecimal text,
 * with at most one `::` elision and an optional dotted IPv4 tail, into its
 * eight 16-bit groups (section 2.2 of RFC 4291). A parser that throws is a
 * `None` here.
 */
module IpText {
  import opened Wrappers
  import opened Bytes
  import opened Strings
  import opened JsBits
  import NameCodec
  import Message

  const Dot: byte := NameCodec.Dot
  const Colon: byte := ':' as int
  const DoubleColon: Text := [Colon, Colon]

  /** One 16-bit group of an IPv6 address. */
  type Group = v: int | 0 <= v < 0x1_0000

  // ---------------------------------------------------------------------------
  // IPv4

  /**
   * The number one part of an IPv4 address stands for: `parseInt(part, 10)`
   * must be a number, neither negative nor 255 or more, whose `toString()`
   * is the part itself.
   */
  function OctetValue(part: Text): (r: Option<byte>)
    ensures r.Some? ==> r.value < 255 && Decimal(r.value) == part
  {
    match ParseIntDecimal(part)
    case None => None
    case Some(n) =>
      if n < 0 || n >= 255 then None
      else if Decimal(n) != part then None
      else Some(n)
  }

  /** Every canonical numeral below 255 is accepted, as the number it writes. */
  lemma OctetValueExact(v: nat)
    requires v < 255
    ensures OctetValue(Decimal(v)) == Some(v)
  {
    ParseDecimal(v);
  }

  /** A part is the canonical numeral of some number below 255. */
  ghost predicate CanonicalOctet(part: Text)
  {
    exists v: nat :: v < 255 && Decimal(v) == part
  }

  /** The numbers some parts stand for, or None if one of them is not accepted. */
  function Octets(parts: seq<Text>): (r: Option<seq<byte>>)
    ensures r.Some? ==> |r.value| == |parts| && forall i :: 0 <= i < |parts| ==> OctetValue(parts[i]) == Some(r.value[i])
    decreases |parts|
  {
    if |parts| == 0 then Some([])
    else
      var init := Octets(parts[..|parts| - 1]);
      var last := OctetValue(parts[|parts| - 1]);
      if init.None? || last.None? then None else Some(init.value + [last.value])
  }

  /** The numbers `IPv4.textToBits` returns, or None where it throws. */
  function Ipv4Bits(address: Text): (r: Option<seq<byte>>)
    ensures r.Some? ==> |r.value| == 4 && forall i :: 0 <= i < 4 ==> r.value[i] < 255
    ensures |Split(address, Dot)| != 4 ==> r.None?
  {
    var parts := Split(address, Dot);
    if |parts| != 4 then None else Octets(parts)
  }

  /** `IPv4.textToBits`: split at the dots, then check and convert the four parts one by one. */
  method Ipv4TextToBits(address: Text) returns (r: Option<seq<byte>>)
    ensures r == Ipv4Bits(address)
  {
    var parts := Split(address, Dot);
    if |parts| != 4 {
      return None;
    }
    var bits := new byte[4];
    for i := 0 to 4
      invariant Octets(parts[..i]) == Some(bits[..i])
    {
      var n := CheckOctet(parts[i]);
      if n.None? {
        OctetsFail(parts, i);
        return None;
      }
      OctetsSnoc(parts, i, bits[..i], n.value);
      bits[i] := n.value;
      assert bits[..i + 1] == bits[..i] + [n.value];
    }
    assert parts[..4] == parts && bits[..4] == bits[..];
    r := Some(bits[..]);
  }

  /** One more accepted part extends the numbers of the parts before it. */
  lemma OctetsSnoc(parts: seq<Text>, i: nat, bs: seq<byte>, v: byte)
    requires i < |parts| && Octets(parts[..i]) == Some(bs) && OctetValue(parts[i]) == Some(v)
    ensures Octets(parts[..i + 1]) == Some(bs + [v])
  {
    assert parts[..i + 1][..i] == parts[..i];
  }

  /** One rejected part rejects the whole list. */
  lemma {:induction false} OctetsFail(parts: seq<Text>, i: nat)
    requires i < |parts| && OctetValue(parts[i]).None?
    ensures Octets(parts).None?
    decreases |parts|
  {
    if i < |parts| - 1 {
      var init := parts[..|parts| - 1];
      assert init[i] == parts[i];
      OctetsFail(init, i);
    }
  }

  /** A list of accepted parts is accepted. */
  lemma {:induction false} OctetsAll(parts: seq<Text>)
    requires forall i :: 0 <= i < |parts| ==> OctetValue(parts[i]).Some?
    ensures Octets(parts).Some?
    decreases |parts|
  {
    if |parts| > 0 {
      var init := parts[..|parts| - 1];
      assert forall i :: 0 <= i < |init| ==> init[i] == parts[i];
      OctetsAll(init);
    }
  }

  /** The checks on one part: a number, in range, written canonically. */
  method CheckOctet(part: Text) returns (r: Option<byte>)
    ensures r == OctetValue(part)
  {
    var n := ParseIntDecimal(part);
    if n.None? || n.value < 0 || n.value >= 255 {
      return None;
    }
    if Decimal(n.value) != part {
      return None;
    }
    r := Some(n.value);
  }

  /**
   * `IPv4.textToBits` accepts exactly the texts of four dot-separated
   * canonical numerals below 255, and returns the numbers they write.
   */
  lemma {:induction false} Ipv4Accepts(address: Text)
    ensures Ipv4Bits(address).Some? <==>
              |Split(address, Dot)| == 4 && forall i :: 0 <= i < 4 ==> CanonicalOctet(Split(address, Dot)[i])
    ensures Ipv4Bits(address).Some? ==>
              forall i :: 0 <= i < 4 ==> Split(address, Dot)[i] == Decimal(Ipv4Bits(address).value[i])
  {
    var parts := Split(address, Dot);
    if |parts| == 4 && forall i :: 0 <= i < 4 ==> CanonicalOctet(parts[i]) {
      forall i | 0 <= i < 4 ensures OctetValue(parts[i]).Some? {
        var v: nat :| v < 255 && Decimal(v) == parts[i];
        OctetValueExact(v);
      }
      OctetsAll(parts);
    }
    if Ipv4Bits(address).Some? {
      forall i | 0 <= i < 4 ensures CanonicalOctet(parts[i]) {
        var v := OctetValue(parts[i]).value;
        assert v < 255 && Decimal(v) == parts[i];
      }
    }
  }

  /** The dotted-decimal text of four numbers below 255 parses back to them. */
  lemma {:induction false} Ipv4RoundTrip(o: seq<byte>)
    requires |o| == 4 && forall i :: 0 <= i < 4 ==> o[i] < 255
    ensures Ipv4Bits(Message.DottedQuad(o)) == Some(o)
  {
    var parts := Message.Decimals(o);
    Message.DecimalsDotFree(o);
    SplitJoin(parts, Dot);
    forall i | 0 <= i < 4 ensures OctetValue(parts[i]) == Some(o[i]) {
      OctetValueExact(o[i]);
    }
    OctetsAll(parts);
    assert Octets(parts).value == o;
  }

  /** A part that is the numeral of 255 or more, 255 itself included, makes the whole address fail. */
  lemma Ipv4RejectsLarge(address: Text, i: nat, v: nat)
    requires i < |Split(address, Dot)| && Split(address, Dot)[i] == Decimal(v) && v >= 255
    ensures Ipv4Bits(address).None?
  {
    if Ipv4Bits(address).Some? {
      var w := Ipv4Bits(address).value[i];
      NumeralValueOf(v, 10);
      NumeralValueOf(w, 10);
      assert false;
    }
  }

  // ---------------------------------------------------------------------------
  // IPv6 groups

  /** `n.toString(16)`. */
  function Hex(n: nat): Text
  {
    Numeral(n, 16)
  }

  /** The value of one group of an IPv6 address: one to four hexadecimal digits. */
  function GroupValue(part: Text): (r: Option<Group>)
    ensures r.Some? ==> 1 <= |part| <= 4 && AllDigits(part, 16)
  {
    if 1 <= |part| <= 4 && AllDigits(part, 16) then
      NumeralBelow(part, 16, 4);
      Some(NumeralValue(part, 16))
    else None
  }

  function Power(base: nat, k: nat): (p: nat)
    ensures base >= 2 ==> p >= 1
  {
    if k == 0 then 1 else base * Power(base, k - 1)
  }

  /** A numeral of at most `k` digits stays below `base^k`. */
  lemma {:induction false} NumeralBelow(s: Text, base: nat, k: nat)
    requires 2 <= base && AllDigits(s, base) && |s| <= k
    ensures NumeralValue(s, base) < Power(base, k)
    decreases |s|
  {
    if |s| > 0 {
      var init := s[..|s| - 1];
      assert AllDigits(init, base) by {
        forall i | 0 <= i < |init| ensures DigitValue(init[i]) < base {
          assert init[i] == s[i];
        }
      }
      NumeralBelow(init, base, k - 1);
      var h, p := NumeralValue(init, base), Power(base, k - 1);
      assert NumeralValue(s, base) == h * base + DigitValue(s[|s| - 1]);
      DigitStep(h, DigitValue(s[|s| - 1]), p, base);
      assert Power(base, k) == base * p;
    }
  }

  lemma DigitStep(h: nat, d: nat, p: nat, base: nat)
    requires h < p && d < base
    ensures h * base + d < base * p
  {
    MulMono(h + 1, p, base);
    assert (h + 1) * base == h * base + base;
  }

  lemma MulMono(a: int, b: int, c: nat)
    requires a <= b
    ensures a * c <= b * c
  {
  }

  /** `n.toString(base)` has at most `k` digits when `n < base^k`. */
  lemma {:induction false} NumeralShort(n: nat, base: nat, k: nat)
    requires 2 <= base <= 36 && 1 <= k && n < Power(base, k)
    ensures |Numeral(n, base)| <= k
    decreases n
  {
    if n >= base {
      DivDown(n, base);
      var q, p := n / base, Power(base, k - 1);
      if q >= p {
        MulMono(p, q, base);
        assert false;
      }
      NumeralShort(q, base, k - 1);
    }
  }

  /** The hexadecimal text of a group reads back as that group. */
  lemma GroupRoundTrip(v: Group)
    ensures GroupValue(Hex(v)) == Some(v)
  {
    assert Power(16, 4) == 0x1_0000;
    NumeralShort(v, 16, 4);
    NumeralValueOf(v, 16);
  }

  /** A hexadecimal numeral holds neither a colon nor a dot. */
  lemma HexPlain(n: nat)
    ensures Colon !in Hex(n) && Dot !in Hex(n)
  {
    var s := Hex(n);
    forall k | 0 <= k < |s| ensures s[k] != Colon && s[k] != Dot {
      assert DigitValue(s[k]) < 16;
    }
  }

  /** Each part's value, or None if one of them is not a group. */
  function GroupValues(parts: seq<Text>): (r: Option<seq<Group>>)
    ensures r.Some? <==> forall i :: 0 <= i < |parts| ==> GroupValue(parts[i]).Some?
    ensures r.Some? ==> |r.value| == |parts| && forall i :: 0 <= i < |parts| ==> GroupValue(parts[i]) == Some(r.value[i])
    decreases |parts|
  {
    if |parts| == 0 then Some([])
    else
      match GroupValue(parts[0])
      case None => None
      case Some(g) =>
        var rest := GroupValues(parts[1..]);
        if rest.None? then None else Some([g] + rest.value)
  }

  /**
   * `IPv6._parseTextParts`: split at the colons and read each part as a
   * group. An empty part fails.
   */
  function ParseTextParts(text: Text): (r: Option<seq<Group>>)
    ensures r.Some? <==> forall i :: 0 <= i < |Split(text, Colon)| ==> GroupValue(Split(text, Colon)[i]).Some?
    ensures r.Some? ==> |r.value| == |Split(text, Colon)|
    ensures r.Some? ==> forall i :: 0 <= i < |r.value| ==> GroupValue(Split(text, Colon)[i]) == Some(r.value[i])
  {
    GroupValues(Split(text, Colon))
  }

  /** The hexadecimal texts of some groups. */
  function Hexes(g: seq<Group>): (r: seq<Text>)
    ensures |r| == |g| && forall i :: 0 <= i < |g| ==> r[i] == Hex(g[i])
  {
    seq(|g|, i requires 0 <= i < |g| => Hex(g[i]))
  }

  /** Groups written in hexadecimal and joined with single colons. */
  function HexJoin(g: seq<Group>): Text
  {
    Join(Hexes(g), [Colon])
  }

  /** The groups joined with colons read back as those groups. */
  lemma {:induction false} PartsRoundTrip(g: seq<Group>)
    requires |g| >= 1
    ensures ParseTextParts(HexJoin(g)) == Some(g)
  {
    var parts := Hexes(g);
    forall i | 0 <= i < |parts| ensures Colon !in parts[i] {
      HexPlain(g[i]);
    }
    SplitJoin(parts, Colon);
    forall i | 0 <= i < |g| ensures GroupValue(parts[i]) == Some(g[i]) {
      GroupRoundTrip(g[i]);
    }
    assert GroupValues(parts).value == g;
  }

  // ---------------------------------------------------------------------------
  // Where the colons are

  /** No two colons are adjacent in `s`. */
  predicate Spaced(s: Text)
  {
    forall j :: 0 <= j < |s| - 1 ==> s[j] != Colon || s[j + 1] != Colon
  }

  /** `s` neither starts nor ends with a colon. */
  predicate Trimmed(s: Text)
  {
    |s| > 0 && s[0] != Colon && s[|s| - 1] != Colon
  }

  /** `::` occurs at `j` exactly when two colons do. */
  lemma OccursPair(s: Text, j: int)
    ensures OccursAt(s, DoubleColon, j) <==> 0 <= j && j + 1 < |s| && s[j] == Colon && s[j + 1] == Colon
  {
    if 0 <= j && j + 1 < |s| {
      assert s[j..j + 2] == [s[j], s[j + 1]];
    }
  }

  /** There is no `::` in a spaced text. */
  lemma SpacedNoElision(s: Text)
    requires Spaced(s)
    ensures SplitOn(s, DoubleColon) == [s]
  {
    forall j ensures !OccursAt(s, DoubleColon, j) {
      OccursPair(s, j);
    }
    var parts := SplitOn(s, DoubleColon);
    assert |parts| == 1 && Join(parts, DoubleColon) == parts[0];
  }

  /** Two trimmed spaced texts joined with one colon are spaced and trimmed. */
  lemma SpacedJoin(a: Text, b: Text)
    requires Trimmed(a) && Spaced(a) && Trimmed(b) && Spaced(b)
    ensures Trimmed(a + [Colon] + b) && Spaced(a + [Colon] + b)
  {
    var s := a + [Colon] + b;
    forall j | 0 <= j < |s| - 1 ensures s[j] != Colon || s[j + 1] != Colon {
      if j < |a| - 1 {
        assert s[j] == a[j] && s[j + 1] == a[j + 1];
      } else if j == |a| - 1 {
        assert s[j] == a[|a| - 1];
      } else if j == |a| {
        assert s[j + 1] == b[0];
      } else {
        assert s[j] == b[j - |a| - 1] && s[j + 1] == b[j - |a|];
      }
    }
  }

  /** Hexadecimal groups joined with colons: spaced, trimmed, and free of dots. */
  lemma {:induction false} HexJoinShape(g: seq<Group>)
    requires |g| >= 1
    ensures Spaced(HexJoin(g)) && Trimmed(HexJoin(g)) && Dot !in HexJoin(g)
    decreases |g|
  {
    HexPlain(g[0]);
    var h := Hex(g[0]);
    assert Hexes(g)[0] == h;
    if |g| == 1 {
      assert HexJoin(g) == h;
    } else {
      HexJoinShape(g[1..]);
      assert Hexes(g)[1..] == Hexes(g[1..]);
      assert HexJoin(g) == h + [Colon] + HexJoin(g[1..]);
      SpacedJoin(h, HexJoin(g[1..]));
    }
  }

  lemma {:induction false} JoinSnoc<T>(parts: seq<seq<T>>, x: seq<T>, sep: seq<T>)
    requires |parts| >= 1
    ensures Join(parts + [x], sep) == Join(parts, sep) + sep + x
    decreases |parts|
  {
    if |parts| > 1 {
      assert (parts + [x])[1..] == parts[1..] + [x];
      JoinSnoc(parts[1..], x, sep);
    }
  }

  /** Appending a group appends a colon and its hexadecimal text. */
  lemma HexJoinSnoc(g: seq<Group>, v: Group)
    requires |g| >= 1
    ensures HexJoin(g + [v]) == HexJoin(g) + [Colon] + Hex(v)
  {
    assert Hexes(g + [v]) == Hexes(g) + [Hex(v)];
    JoinSnoc(Hexes(g), Hex(v), [Colon]);
  }

  /** In `a :: b` with `a` and `b` free of `::` and `a` not ending in a colon, the text splits at the one `::`. */
  lemma ElisionSplit(a: Text, b: Text)
    requires Spaced(a) && (|a| > 0 ==> a[|a| - 1] != Colon) && Spaced(b)
    ensures SplitOn(a + DoubleColon + b, DoubleColon) == [a, b]
  {
    var s := a + DoubleColon + b;
    forall j | 0 <= j < |a| ensures !OccursAt(s, DoubleColon, j) {
      OccursPair(s, j);
      if j + 1 < |a| {
        assert s[j] == a[j] && s[j + 1] == a[j + 1];
      } else {
        assert s[j] == a[|a| - 1];
      }
    }
    OccursPair(s, |a|);
    var f := Find(s, DoubleColon);
    assert f == Some(|a|);
    assert s[..|a|] == a && s[|a| + 2..] == b;
    SpacedNoElision(b);
  }

  // ---------------------------------------------------------------------------
  // IPv6 addresses

  /** `(x << 8) | y` for two numbers below 255 is the 16-bit group `x * 256 + y`. */
  lemma ShiftOr(x: byte, y: byte)
    requires x < 255 && y < 255
    ensures JsOr(JsShl(x, 8), y) == x as int * 0x100 + y
  {
    Pow2Value();
    JsOrDisjoint(JsShl(x, 8), x, y, 8, 0x100);
  }

  /**
   * The part after the last `::`, with a dotted IPv4 tail (the text after its
   * last colon, when it holds a dot) rewritten as two hexadecimal groups
   * `(a << 8) | b` and `(c << 8) | d`; None when that tail is not an IPv4
   * address.
   */
  function WithIpv4Tail(latter: Text): Option<Text>
  {
    if Dot !in latter then Some(latter)
    else
      var id := LastIndexOf(latter, Colon);
      match Ipv4Bits(latter[id + 1..])
      case None => None
      case Some(ip4) => Some(Ipv4Groups(latter[..id + 1], ip4))
  }

  /** `head + a + ':' + b` with `a`, `b` the hexadecimal texts of `(x[0] << 8) | x[1]` and `(x[2] << 8) | x[3]`. */
  function Ipv4Groups(head: Text, x: seq<byte>): Text
    requires |x| == 4 && forall i :: 0 <= i < 4 ==> x[i] < 255
  {
    ShiftOr(x[0], x[1]);
    ShiftOr(x[2], x[3]);
    head + Hex(JsOr(JsShl(x[0], 8), x[1])) + [Colon] + Hex(JsOr(JsShl(x[2], 8), x[3]))
  }

  /** The two groups are `x[0] * 256 + x[1]` and `x[2] * 256 + x[3]`. */
  lemma Ipv4GroupsValue(head: Text, x: seq<byte>)
    requires |x| == 4 && forall i :: 0 <= i < 4 ==> x[i] < 255
    ensures Ipv4Groups(head, x) == head + Hex(x[0] as int * 0x100 + x[1]) + [Colon] + Hex(x[2] as int * 0x100 + x[3])
  {
    ShiftOr(x[0], x[1]);
    ShiftOr(x[2], x[3]);
    SameHex(JsOr(JsShl(x[0], 8), x[1]), x[0] as int * 0x100 + x[1]);
    SameHex(JsOr(JsShl(x[2], 8), x[3]), x[2] as int * 0x100 + x[3]);
  }

  lemma SameHex(a: nat, b: nat)
    requires a == b
    ensures Hex(a) == Hex(b)
  {
  }

  function Zeros(n: nat): (r: seq<Group>)
    ensures |r| == n && forall i :: 0 <= i < n ==> r[i] == 0
  {
    seq(n, _ => 0)
  }

  /**
   * `IPv6.textToBits`: the eight groups, or None where it throws. The text
   * splits at `::` into at most two halves; a dotted tail of the last half is
   * rewritten first.
   */
  function Ipv6Bits(address: Text): (r: Option<seq<Group>>)
    ensures r.Some? ==> |r.value| == 8
    ensures |SplitOn(address, DoubleColon)| > 2 ==> r.None?
  {
    var halves := SplitOn(address, DoubleColon);
    if |halves| > 2 then None
    else
      var latter :- WithIpv4Tail(halves[|halves| - 1]);
      if |halves| == 1 then AllGroups(latter) else Elided(halves[0], latter)
  }

  /** Without an elision: exactly eight groups. */
  function AllGroups(text: Text): (r: Option<seq<Group>>)
    ensures r.Some? ==> |r.value| == 8
  {
    var bits :- ParseTextParts(text);
    if |bits| != 8 then None else Some(bits)
  }

  /**
   * With an elision between `former` and `latter`: zeros pad the groups out
   * to eight, in front, behind, or between the halves. With both halves
   * non-empty, the source's group-count guard refers to an undeclared
   * variable and throws a ReferenceError, a failure here too.
   */
  function Elided(former: Text, latter: Text): (r: Option<seq<Group>>)
    ensures r.Some? ==> |r.value| == 8
  {
    if former == [] then
      if latter == [] then Some(Zeros(8))
      else
        var bits :- ParseTextParts(latter);
        if |bits| >= 8 then None else Some(Zeros(8 - |bits|) + bits)
    else if latter == [] then
      var bits :- ParseTextParts(former);
      if |bits| >= 8 then None else Some(bits + Zeros(8 - |bits|))
    else
      var a :- ParseTextParts(former);
      var b :- ParseTextParts(latter);
      if |a| + |b| >= 8 then None else Some(a + Zeros(8 - |a| - |b|) + b)
  }

  /** Without an elision, exactly eight groups are accepted, and they read back as themselves. */
  lemma {:induction false} Ipv6Plain(g: seq<Group>)
    ensures Ipv6Bits(HexJoin(g)) == if |g| == 8 then Some(g) else None
  {
    var s := HexJoin(g);
    if |g| == 0 {
      assert s == [];
      assert SplitOn(s, DoubleColon) == [s];
      assert Split(s, Colon) == [[]];
    } else {
      HexJoinShape(g);
      SpacedNoElision(s);
      PartsRoundTrip(g);
    }
  }

  /**
   * With one elision between the groups `a` and `b`, the missing groups are
   * zeros: `::` alone gives eight zeros, a leading or trailing `::` pads in
   * front or behind, a middle one fills between the halves. Eight or more
   * explicit groups fail.
   */
  lemma {:induction false} Ipv6Elided(a: seq<Group>, b: seq<Group>)
    ensures Ipv6Bits(HexJoin(a) + DoubleColon + HexJoin(b)) ==
              if |a| + |b| >= 8 then None else Some(a + Zeros(8 - |a| - |b|) + b)
  {
    var x, y := HexJoin(a), HexJoin(b);
    if |a| == 0 { assert x == []; } else { HexJoinShape(a); }
    if |b| == 0 { assert y == []; } else { HexJoinShape(b); }
    ElisionSplit(x, y);
    assert WithIpv4Tail(y) == Some(y);
    assert Ipv6Bits(x + DoubleColon + y) == Elided(x, y);
    ElidedGroups(a, b);
  }

  /** The padding step on the texts of two lists of groups. */
  lemma {:induction false} ElidedGroups(a: seq<Group>, b: seq<Group>)
    ensures Elided(HexJoin(a), HexJoin(b)) ==
              if |a| + |b| >= 8 then None else Some(a + Zeros(8 - |a| - |b|) + b)
  {
    var x, y := HexJoin(a), HexJoin(b);
    if |a| == 0 && |b| == 0 {
      assert x == [] && y == [];
      assert a + Zeros(8) + b == Zeros(8);
    } else if |a| == 0 {
      assert x == [];
      HexJoinShape(b);
      PartsRoundTrip(b);
      if |b| < 8 {
        assert a + Zeros(8 - |b|) + b == Zeros(8 - |b|) + b;
      }
    } else if |b| == 0 {
      assert y == [];
      HexJoinShape(a);
      PartsRoundTrip(a);
      if |a| < 8 {
        assert a + Zeros(8 - |a|) + b == a + Zeros(8 - |a|);
      }
    } else {
      HexJoinShape(a);
      HexJoinShape(b);
      PartsRoundTrip(a);
      PartsRoundTrip(b);
    }
  }

  /** `::` alone is the all-zero address. */
  lemma Ipv6Unspecified()
    ensures Ipv6Bits(DoubleColon) == Some(Zeros(8))
  {
    Ipv6Elided([], []);
    assert HexJoin([]) + DoubleColon + HexJoin([]) == DoubleColon;
  }

  /** A dotted tail after a colon is replaced by its two hexadecimal groups. */
  lemma {:induction false} Ipv4TailRewrite(p: Text, o: seq<byte>)
    requires |o| == 4 && forall i :: 0 <= i < 4 ==> o[i] < 255
    requires Dot !in p && |p| > 0 && p[|p| - 1] == Colon
    ensures WithIpv4Tail(p + Message.DottedQuad(o)) ==
              Some(p + Hex(o[0] as int * 0x100 + o[1]) + [Colon] + Hex(o[2] as int * 0x100 + o[3]))
  {
    var q := Message.DottedQuad(o);
    var s := p + q;
    var parts := Message.Decimals(o);
    assert q == parts[0] + [Dot] + Join(parts[1..], [Dot]);
    assert s[|p| + |parts[0]|] == Dot;
    forall k | 0 <= k < |q| ensures q[k] != Colon {
      QuadColonFree(o, k);
    }
    var id := LastIndexOf(s, Colon);
    assert s[|p| - 1] == Colon;
    assert id == |p| - 1;
    assert s[id + 1..] == q && s[..id + 1] == p;
    Ipv4RoundTrip(o);
    TailAt(s, o);
    Ipv4GroupsValue(p, o);
  }

  /** The rewrite, once the last colon and the address after it are known. */
  lemma TailAt(s: Text, x: seq<byte>)
    requires Dot in s && Ipv4Bits(s[LastIndexOf(s, Colon) + 1..]) == Some(x)
    ensures WithIpv4Tail(s) == Some(Ipv4Groups(s[..LastIndexOf(s, Colon) + 1], x))
  {
  }

  /**
   * The other two cases of the rewrite: a text without a dot is kept as it
   * is, and a dotted tail after the last colon that is not an IPv4 address
   * fails, as `IPv4.textToBits` throws on it.
   */
  lemma TailCases(s: Text)
    ensures Dot !in s ==> WithIpv4Tail(s) == Some(s)
    ensures Dot in s && Ipv4Bits(s[LastIndexOf(s, Colon) + 1..]).None? ==> WithIpv4Tail(s).None?
  {
  }

  /** A dotted-decimal text holds digits and dots only. */
  lemma QuadColonFree(o: seq<byte>, k: nat)
    requires |o| == 4 && k < |Message.DottedQuad(o)|
    ensures Message.DottedQuad(o)[k] != Colon
  {
    var parts := Message.Decimals(o);
    DigitsAndDots(parts, k);
  }

  lemma {:induction false} DigitsAndDots(parts: seq<Text>, k: nat)
    requires forall i :: 0 <= i < |parts| ==> AllDigits(parts[i], 10)
    requires k < |Join(parts, [Dot])|
    ensures Join(parts, [Dot])[k] != Colon
    decreases |parts|
  {
    var s := Join(parts, [Dot]);
    if |parts| == 1 {
      assert DigitValue(s[k]) < 10;
    } else {
      var p := parts[0];
      assert s == p + [Dot] + Join(parts[1..], [Dot]);
      if k < |p| {
        assert s[k] == p[k] && DigitValue(p[k]) < 10;
      } else if k > |p| {
        DigitsAndDots(parts[1..], k - |p| - 1);
      }
    }
  }

  /** Groups, a colon and a dotted IPv4 address hold no `::`. */
  lemma QuadTailSpaced(g: seq<Group>, o: seq<byte>)
    requires |g| >= 1 && |o| == 4
    ensures Spaced(HexJoin(g) + [Colon] + Message.DottedQuad(o))
  {
    var p := HexJoin(g) + [Colon];
    var s := p + Message.DottedQuad(o);
    HexJoinShape(g);
    forall j | 0 <= j < |s| - 1 ensures s[j] != Colon || s[j + 1] != Colon {
      if j < |p| - 2 {
        assert s[j] == HexJoin(g)[j] && s[j + 1] == HexJoin(g)[j + 1];
      } else if j == |p| - 2 {
        assert s[j] == HexJoin(g)[|p| - 2];
      } else {
        QuadColonFree(o, j + 1 - |p|);
      }
    }
  }

  /** Six groups followed by a dotted IPv4 address read as those six groups and the address's two halves. */
  lemma {:induction false} Ipv6WithIpv4(g: seq<Group>, o: seq<byte>)
    requires |g| == 6
    requires |o| == 4 && forall i :: 0 <= i < 4 ==> o[i] < 255
    ensures Ipv6Bits(HexJoin(g) + [Colon] + Message.DottedQuad(o)) ==
              Some(g + [o[0] as int * 0x100 + o[1], o[2] as int * 0x100 + o[3]])
  {
    var hi: Group, lo: Group := o[0] as int * 0x100 + o[1], o[2] as int * 0x100 + o[3];
    var p := HexJoin(g) + [Colon];
    var s := p + Message.DottedQuad(o);
    QuadTailSpaced(g, o);
    SpacedNoElision(s);
    HexJoinShape(g);
    Ipv4TailRewrite(p, o);
    RewrittenGroups(g, hi, lo);
    assert WithIpv4Tail(s) == Some(HexJoin(g + [hi, lo]));
  }

  /** The rewritten text is the eight groups joined with colons. */
  lemma RewrittenGroups(g: seq<Group>, hi: Group, lo: Group)
    requires |g| == 6
    ensures HexJoin(g) + [Colon] + Hex(hi) + [Colon] + Hex(lo) == HexJoin(g + [hi, lo])
    ensures AllGroups(HexJoin(g + [hi, lo])) == Some(g + [hi, lo])
  {
    HexJoinSnoc(g, hi);
    HexJoinSnoc(g + [hi], lo);
    assert g + [hi] + [lo] == g + [hi, lo];
    PartsRoundTrip(g + [hi, lo]);
  }
}
