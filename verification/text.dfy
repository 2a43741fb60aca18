/**
 * The string operations the codec and the address parsers rely on:
 * `split`/`join`, `indexOf`/`lastIndexOf`, `Number.prototype.toString(radix)`
 * and `parseInt`.
 */
module Strings {
  import opened Wrappers
  import opened Bytes

  /** `pat` occurs in `s` starting at index `j`. */
  predicate OccursAt<T(==)>(s: seq<T>, pat: seq<T>, j: int)
  {
    0 <= j && j + |pat| <= |s| && s[j..j + |pat|] == pat
  }

  /** The first index at which `pat` occurs in `s`, as `s.indexOf(pat)` finds it. */
  function Find<T(==)>(s: seq<T>, pat: seq<T>): (r: Option<nat>)
    requires |pat| > 0
    ensures r.Some? ==> OccursAt(s, pat, r.value)
    ensures r.Some? ==> forall j :: 0 <= j < r.value ==> !OccursAt(s, pat, j)
    ensures r.None? ==> forall j :: !OccursAt(s, pat, j)
    decreases |s|
  {
    if |s| < |pat| then None
    else if s[..|pat|] == pat then Some(0)
    else
      var r := Find(s[1..], pat);
      ShiftOccurs(s, pat);
      if r.None? then None else Some(r.value + 1)
  }

  lemma ShiftOccurs<T>(s: seq<T>, pat: seq<T>)
    requires |s| > 0
    ensures forall j :: 0 < j ==> (OccursAt(s, pat, j) <==> OccursAt(s[1..], pat, j - 1))
  {
    forall j | 0 < j
      ensures OccursAt(s, pat, j) <==> OccursAt(s[1..], pat, j - 1)
    {
      if j + |pat| <= |s| {
        var a, b := s[j..j + |pat|], s[1..][j - 1..j - 1 + |pat|];
        assert |a| == |b| && forall k :: 0 <= k < |a| ==> a[k] == b[k];
      }
    }
  }

  /** Concatenation regroups freely; stated once so that proofs can cite it instead of re-deriving it. */
  lemma AppendAssoc<T>(a: seq<T>, b: seq<T>, c: seq<T>)
    ensures a + b + c == a + (b + c)
  {
  }

  /** A sequence is what comes before index `i`, the element at `i`, and what comes after. */
  lemma SplitAt<T>(s: seq<T>, i: nat)
    requires i < |s|
    ensures s == s[..i] + [s[i]] + s[i + 1..]
  {
    assert s == s[..i] + s[i..] && s[i..] == [s[i]] + s[i + 1..];
  }

  /** `parts.join(sep)` for a separator of any length. */
  function Join<T>(parts: seq<seq<T>>, sep: seq<T>): seq<T>
    decreases |parts|
  {
    if |parts| == 0 then []
    else if |parts| == 1 then parts[0]
    else parts[0] + sep + Join(parts[1..], sep)
  }

  /** `s.split(sep)` for a non-empty separator: the pieces between non-overlapping occurrences, left to right. */
  function SplitOn<T(==)>(s: seq<T>, sep: seq<T>): (parts: seq<seq<T>>)
    requires |sep| > 0
    ensures |parts| >= 1
    ensures Join(parts, sep) == s
    ensures |parts| == 1 <==> Find(s, sep).None?
    decreases |s|
  {
    match Find(s, sep)
    case None => [s]
    case Some(i) =>
      OccursSplit(s, sep, i);
      var rest := SplitOn(s[i + |sep|..], sep);
      JoinCons(s[..i], rest, sep);
      [s[..i]] + rest
  }

  lemma OccursSplit<T>(s: seq<T>, pat: seq<T>, i: int)
    requires OccursAt(s, pat, i)
    ensures s == s[..i] + pat + s[i + |pat|..]
  {
    assert s == s[..i] + s[i..i + |pat|] + s[i + |pat|..];
  }

  lemma JoinCons<T>(p: seq<T>, rest: seq<seq<T>>, sep: seq<T>)
    requires |rest| >= 1
    ensures Join([p] + rest, sep) == p + sep + Join(rest, sep)
  {
    var parts := [p] + rest;
    assert parts[0] == p && parts[1..] == rest;
  }

  /** `s.split(c)` for a one-character separator. */
  function Split<T(==)>(s: seq<T>, c: T): (parts: seq<seq<T>>)
    ensures |parts| >= 1
    ensures Join(parts, [c]) == s
    ensures forall i :: 0 <= i < |parts| ==> c !in parts[i]
  {
    var parts := SplitOn(s, [c]);
    SplitPartsFree(s, c);
    parts
  }

  lemma {:induction false} OccursSingle<T>(s: seq<T>, c: T, j: int)
    ensures OccursAt(s, [c], j) <==> 0 <= j < |s| && s[j] == c
  {
    if 0 <= j < |s| {
      assert |s[j..j + 1]| == 1 && s[j..j + 1][0] == s[j];
    }
  }

  lemma {:induction false} SplitPartsFree<T>(s: seq<T>, c: T)
    ensures forall i :: 0 <= i < |SplitOn(s, [c])| ==> c !in SplitOn(s, [c])[i]
    decreases |s|
  {
    var parts := SplitOn(s, [c]);
    match Find(s, [c])
    case None =>
      forall j | 0 <= j < |s| ensures s[j] != c {
        OccursSingle(s, c, j);
      }
    case Some(k) =>
      SplitPartsFree(s[k + 1..], c);
      forall j | 0 <= j < k ensures s[j] != c {
        OccursSingle(s, c, j);
      }
      assert parts == [s[..k]] + SplitOn(s[k + 1..], [c]);
  }

  /** Where a one-character `c` first occurs in `s`, or -1, as `s.indexOf(c)` finds it. */
  function IndexOf<T(==)>(s: seq<T>, c: T): (i: int)
    ensures -1 <= i < |s|
    ensures i >= 0 ==> s[i] == c
  {
    IndexFrom(s, c, 0)
  }

  /** The first index at or after `from` holding `c`, or -1. */
  function IndexFrom<T(==)>(s: seq<T>, c: T, from: nat): (i: int)
    ensures i == -1 || from <= i < |s|
    ensures i >= 0 ==> s[i] == c
    decreases |s| - from
  {
    if from >= |s| then -1
    else if s[from] == c then from
    else IndexFrom(s, c, from + 1)
  }

  /** `c` does not occur before the index `IndexOf` returns, nor anywhere when it returns -1. */
  lemma IndexOfFirst<T>(s: seq<T>, c: T)
    ensures var i := IndexOf(s, c);
            forall j :: 0 <= j < |s| && (i < 0 || j < i) ==> s[j] != c
  {
    IndexFromFirst(s, c, 0);
  }

  lemma {:induction false} IndexFromFirst<T>(s: seq<T>, c: T, from: nat)
    ensures var i := IndexFrom(s, c, from);
            forall j :: from <= j < |s| && (i < 0 || j < i) ==> s[j] != c
    decreases |s| - from
  {
    if from < |s| && s[from] != c {
      IndexFromFirst(s, c, from + 1);
    }
  }

  /** Where a one-character `c` last occurs in `s`, or -1, as `s.lastIndexOf(c)` finds it. */
  function LastIndexOf<T(==)>(s: seq<T>, c: T): (i: int)
    ensures -1 <= i < |s|
    ensures i >= 0 ==> s[i] == c
    ensures forall j :: i < j < |s| ==> s[j] != c
  {
    LastIndexBefore(s, c, |s|)
  }

  /** The last index below `upto` holding `c`, or -1. */
  function LastIndexBefore<T(==)>(s: seq<T>, c: T, upto: nat): (i: int)
    requires upto <= |s|
    ensures -1 <= i < upto
    ensures i >= 0 ==> s[i] == c
    ensures forall j :: i < j < upto ==> s[j] != c
    decreases upto
  {
    if upto == 0 then -1
    else if s[upto - 1] == c then upto - 1
    else LastIndexBefore(s, c, upto - 1)
  }

  /** In a part that does not contain `c`, followed by `c`, the first `c` is the one after the part. */
  lemma IndexOfSplit<T>(p: seq<T>, c: T, rest: seq<T>)
    requires c !in p
    ensures IndexOf(p + [c] + rest, c) == |p|
  {
    var s := p + [c] + rest;
    forall j | 0 <= j <= |p| ensures IndexFrom(s, c, j) == |p| {
      IndexFromSkips(s, c, j, |p|);
    }
  }

  lemma {:induction false} IndexFromSkips<T>(s: seq<T>, c: T, from: nat, k: nat)
    requires from <= k < |s| && s[k] == c
    requires forall j :: from <= j < k ==> s[j] != c
    ensures IndexFrom(s, c, from) == k
    decreases k - from
  {
    if from < k {
      IndexFromSkips(s, c, from + 1, k);
    }
  }

  /** Splitting a join on a one-character separator that no part contains gives the parts back. */
  lemma {:induction false} SplitJoin<T>(parts: seq<seq<T>>, c: T)
    requires |parts| >= 1
    requires forall i :: 0 <= i < |parts| ==> c !in parts[i]
    ensures Split(Join(parts, [c]), c) == parts
    decreases |parts|
  {
    var s := Join(parts, [c]);
    if |parts| == 1 {
      forall j ensures !OccursAt(s, [c], j) {
        OccursSingle(s, c, j);
      }
    } else {
      var p := parts[0];
      var rest := Join(parts[1..], [c]);
      assert s == p + [c] + rest;
      forall j | 0 <= j < |p| ensures !OccursAt(s, [c], j) {
        OccursSingle(s, c, j);
        assert s[j] == p[j];
      }
      OccursSingle(s, c, |p|);
      assert Find(s, [c]) == Some(|p|);
      assert s[..|p|] == p;
      assert s[|p| + 1..] == rest;
      SplitJoin(parts[1..], c);
    }
  }

  // ---------------------------------------------------------------------------
  // Numerals

  /** The value of a digit character in bases up to 36; 36 for a non-digit. */
  function DigitValue(c: byte): (d: nat)
    ensures d <= 36
  {
    if '0' as int <= c <= '9' as int then c - '0' as int
    else if 'a' as int <= c <= 'z' as int then c - 'a' as int + 10
    else if 'A' as int <= c <= 'Z' as int then c - 'A' as int + 10
    else 36
  }

  /** The lower-case digit character for `d`, as `toString(radix)` writes it. */
  function DigitChar(d: nat): (c: byte)
    requires d < 36
    ensures DigitValue(c) == d
    ensures c == '0' as int <==> d == 0
  {
    if d < 10 then '0' as int + d else 'a' as int + d - 10
  }

  predicate AllDigits(s: Text, base: nat)
  {
    forall i :: 0 <= i < |s| ==> DigitValue(s[i]) < base
  }

  /** The value of a numeral, most significant digit first. */
  function NumeralValue(s: Text, base: nat): nat
    requires AllDigits(s, base)
    decreases |s|
  {
    if |s| == 0 then 0 else NumeralValue(s[..|s| - 1], base) * base + DigitValue(s[|s| - 1])
  }

  /** `n.toString(base)` for a non-negative integer: no leading zeros, lower-case digits. */
  function Numeral(n: nat, base: nat): (s: Text)
    requires 2 <= base <= 36
    ensures |s| >= 1 && AllDigits(s, base)
    ensures |s| > 1 ==> s[0] != '0' as int
    decreases n
  {
    if n < base then [DigitChar(n)]
    else
      DivDown(n, base);
      Numeral(n / base, base) + [DigitChar(n % base)]
  }

  lemma DivDown(n: nat, base: nat)
    requires 2 <= base <= n
    ensures 1 <= n / base < n && n % base < base
    ensures n == (n / base) * base + n % base
  {
  }

  /** `n.toString()`: the canonical decimal numeral of `n`. */
  function Decimal(n: nat): (s: Text)
  {
    Numeral(n, 10)
  }

  lemma {:induction false} NumeralValueOf(n: nat, base: nat)
    requires 2 <= base <= 36
    ensures NumeralValue(Numeral(n, base), base) == n
    decreases n
  {
    if n >= base {
      DivDown(n, base);
      var s := Numeral(n, base);
      assert s[..|s| - 1] == Numeral(n / base, base);
      NumeralValueOf(n / base, base);
      assert DigitValue(s[|s| - 1]) == n % base;
    }
  }

  /** The number of leading characters of `s` that are digits in `base`. */
  function DigitRun(s: Text, base: nat): (k: nat)
    ensures k <= |s| && AllDigits(s[..k], base)
    ensures k < |s| ==> DigitValue(s[k]) >= base
    decreases |s|
  {
    if |s| == 0 || DigitValue(s[0]) >= base then 0
    else
      var k := DigitRun(s[1..], base);
      assert s[..k + 1] == [s[0]] + s[1..][..k];
      k + 1
  }

  lemma {:induction false} DigitRunAll(s: Text, base: nat)
    requires AllDigits(s, base)
    ensures DigitRun(s, base) == |s|
    decreases |s|
  {
    if |s| > 0 {
      DigitRunAll(s[1..], base);
    }
  }

  /** The unsigned part of `parseInt`: the value of the leading digit run, or None (NaN) if there is none. */
  function LeadingNumber(s: Text, base: nat): Option<int>
  {
    var k := DigitRun(s, base);
    if k == 0 then None else Some(NumeralValue(s[..k], base))
  }

  /** The characters `parseInt` skips before a number: white space, line terminators and no-break space. */
  predicate IsSpace(c: byte)
  {
    c == 9 || c == 10 || c == 11 || c == 12 || c == 13 || c == 32 || c == 0xA0
  }

  /** `s` without its leading white space. */
  function TrimStart(s: Text): (t: Text)
    ensures |t| <= |s| && (|t| > 0 ==> !IsSpace(t[0]))
    ensures |s| > 0 && !IsSpace(s[0]) ==> t == s
    decreases |s|
  {
    if |s| > 0 && IsSpace(s[0]) then TrimStart(s[1..]) else s
  }

  /** `parseInt(s, 10)`: leading white space, an optional sign, then the leading decimal digits. */
  function ParseIntDecimal(s: Text): Option<int>
  {
    var t := TrimStart(s);
    if |t| > 0 && t[0] == '-' as int then
      match LeadingNumber(t[1..], 10)
      case None => None
      case Some(v) => Some(-v)
    else if |t| > 0 && t[0] == '+' as int then LeadingNumber(t[1..], 10)
    else LeadingNumber(t, 10)
  }

  /** `parseInt(s)` with no radix: as `ParseIntDecimal`, except that `0x`/`0X` selects hexadecimal. */
  function ParseIntAuto(s: Text): Option<int>
  {
    var t := TrimStart(s);
    var neg := |t| > 0 && t[0] == '-' as int;
    var body := if |t| > 0 && (t[0] == '-' as int || t[0] == '+' as int) then t[1..] else t;
    var v :=
      if |body| >= 2 && body[0] == '0' as int && (body[1] == 'x' as int || body[1] == 'X' as int)
      then LeadingNumber(body[2..], 16)
      else LeadingNumber(body, 10);
    match v
    case None => None
    case Some(n) => Some(if neg then -n else n)
  }

  /** `parseInt` reads back every canonical decimal numeral, with or without a radix. */
  lemma {:induction false} ParseDecimal(n: nat)
    ensures ParseIntDecimal(Decimal(n)) == Some(n)
    ensures ParseIntAuto(Decimal(n)) == Some(n)
  {
    var s := Decimal(n);
    assert DigitValue(s[0]) < 10 && TrimStart(s) == s;
    DigitRunAll(s, 10);
    NumeralValueOf(n, 10);
    assert s[..|s|] == s;
    assert |s| >= 2 ==> s[1] != 'x' as int && s[1] != 'X' as int by {
      if |s| >= 2 { assert DigitValue(s[1]) < 10; }
    }
  }

  /** Reading a numeral written in `base` gives the number back. */
  lemma {:induction false} NumeralRoundTrip(n: nat, base: nat)
    requires 2 <= base <= 36
    ensures NumeralValue(Numeral(n, base), base) == n
    ensures LeadingNumber(Numeral(n, base), base) == Some(n)
  {
    var s := Numeral(n, base);
    DigitRunAll(s, base);
    NumeralValueOf(n, base);
    assert s[..|s|] == s;
  }
}
