/** Names and paths. A `string` is a sequence of Unicode scalar values, as a Rust `String` is. */
module Text {
  import opened Bytes

  const SEP: char := '\\'

  // ----- ASCII case folding -----

  function UpperChar(c: char): char {
    if 'a' <= c <= 'z' then (c as int - 32) as char else c
  }

  function LowerChar(c: char): char {
    if 'A' <= c <= 'Z' then (c as int + 32) as char else c
  }

  function Upper(s: string): (r: string)
    ensures |r| == |s|
  {
    seq(|s|, i requires 0 <= i < |s| => UpperChar(s[i]))
  }

  function Lower(s: string): (r: string)
    ensures |r| == |s|
  {
    seq(|s|, i requires 0 <= i < |s| => LowerChar(s[i]))
  }

  /** `eq_ignore_ascii_case`: equal up to ASCII case. */
  predicate SameName(a: string, b: string) {
    Lower(a) == Lower(b)
  }

  /** The two foldings the source uses (upper for lookup and diff, lower for expansion) agree on
      which names are the same. */
  lemma FoldingsAgree(a: string, b: string)
    ensures SameName(a, b) <==> Upper(a) == Upper(b)
  {
    if Lower(a) == Lower(b) {
      forall i | 0 <= i < |a| ensures Upper(a)[i] == Upper(b)[i] {
        assert Lower(a)[i] == Lower(b)[i];
      }
    }
    if Upper(a) == Upper(b) {
      forall i | 0 <= i < |a| ensures Lower(a)[i] == Lower(b)[i] {
        assert Upper(a)[i] == Upper(b)[i];
      }
    }
  }

  /** The same character, or the two cases of one ASCII letter. */
  predicate SameLetter(c: char, d: char) {
    || c == d
    || ('A' <= c <= 'Z' && d as int == c as int + 32)
    || ('A' <= d <= 'Z' && c as int == d as int + 32)
  }

  /** Equal up to ASCII case, character by character. */
  predicate EqualFold(a: string, b: string) {
    |a| == |b| && forall i | 0 <= i < |a| :: SameLetter(a[i], b[i])
  }

  /** The upper-cased form of a name is the one without lower-case ASCII letters that is equal to it up to case. */
  lemma UpperExact(s: string, r: string)
    ensures r == Upper(s) <==> EqualFold(r, s) && forall i | 0 <= i < |r| :: !('a' <= r[i] <= 'z')
  {
    if EqualFold(r, s) && (forall i | 0 <= i < |r| :: !('a' <= r[i] <= 'z')) {
      forall i | 0 <= i < |r| ensures r[i] == Upper(s)[i] {
        assert SameLetter(r[i], s[i]);
      }
    }
  }

  /** The same for the lower-cased form. */
  lemma LowerExact(s: string, r: string)
    ensures r == Lower(s) <==> EqualFold(r, s) && forall i | 0 <= i < |r| :: !('A' <= r[i] <= 'Z')
  {
    if EqualFold(r, s) && (forall i | 0 <= i < |r| :: !('A' <= r[i] <= 'Z')) {
      forall i | 0 <= i < |r| ensures r[i] == Lower(s)[i] {
        assert SameLetter(r[i], s[i]);
      }
    }
  }

  /** Comparing folded names is comparing them up to case. */
  lemma FoldedEqual(a: string, b: string)
    ensures Upper(a) == Upper(b) <==> EqualFold(a, b)
    ensures SameName(a, b) <==> EqualFold(a, b)
  {
    FoldingsAgree(a, b);
    if Upper(a) == Upper(b) {
      forall i | 0 <= i < |a| ensures SameLetter(a[i], b[i]) {
        assert Upper(a)[i] == Upper(b)[i];
      }
    }
    if EqualFold(a, b) {
      forall i | 0 <= i < |a| ensures Upper(a)[i] == Upper(b)[i] {
        assert SameLetter(a[i], b[i]);
      }
    }
  }

  // ----- order on strings (byte order of UTF-8, which is code point order) -----

  predicate Less(a: string, b: string) {
    if b == [] then false
    else if a == [] then true
    else a[0] < b[0] || (a[0] == b[0] && Less(a[1..], b[1..]))
  }

  lemma {:induction false} LessTotal(a: string, b: string)
    ensures Less(a, b) || a == b || Less(b, a)
  {
    if a != [] && b != [] && a[0] == b[0] {
      LessTotal(a[1..], b[1..]);
      assert a == [a[0]] + a[1..] && b == [b[0]] + b[1..];
    }
  }

  lemma {:induction false} LessAsymmetric(a: string, b: string)
    requires Less(a, b)
    ensures !Less(b, a) && a != b
  {
    if a != [] && a[0] == b[0] {
      LessAsymmetric(a[1..], b[1..]);
    }
  }

  lemma LessIrreflexive(a: string)
    ensures !Less(a, a)
  {
    if Less(a, a) {
      LessAsymmetric(a, a);
    }
  }

  lemma {:induction false} LessTransitive(a: string, b: string, c: string)
    requires Less(a, b) && Less(b, c)
    ensures Less(a, c)
  {
    if a != [] && a[0] == b[0] && b[0] == c[0] {
      LessTransitive(a[1..], b[1..], c[1..]);
    }
  }

  /** One string comes before another where they first differ, or where it ends. */
  lemma {:induction false} LessExact(a: string, b: string)
    ensures Less(a, b) <==> exists k :: LessFrom(a, b, k)
  {
    if a != [] && b != [] && a[0] == b[0] {
      LessExact(a[1..], b[1..]);
      if k :| LessFrom(a[1..], b[1..], k) {
        assert a[..k + 1] == [a[0]] + a[1..][..k] && b[..k + 1] == [b[0]] + b[1..][..k];
        assert LessFrom(a, b, k + 1);
      }
      if k :| LessFrom(a, b, k) {
        assert k > 0 && a[1..][..k - 1] == a[..k][1..] && b[1..][..k - 1] == b[..k][1..];
        assert LessFrom(a[1..], b[1..], k - 1);
      }
    } else {
      assert Less(a, b) <==> LessFrom(a, b, 0);
      forall k | LessFrom(a, b, k) ensures k == 0 {
        SameStart(a, b, k);
      }
    }
  }

  lemma SameStart(a: string, b: string, k: int)
    requires LessFrom(a, b, k)
    ensures k > 0 ==> a != [] && b != [] && a[0] == b[0]
  {
    if k > 0 {
      assert a[..k][0] == b[..k][0];
    }
  }

  /** The first `k` characters agree; then `a` ends before `b`, or has the smaller character. */
  predicate LessFrom(a: string, b: string, k: int) {
    0 <= k <= |a| && k < |b| && a[..k] == b[..k] && (k == |a| || a[k] < b[k])
  }

  // ----- backslash-separated paths -----

  function Split(s: string): (parts: seq<string>)
    ensures |parts| > 0
    ensures forall p | p in parts :: SEP !in p
  {
    if s == [] then [[]]
    else
      var rest := Split(s[1..]);
      if s[0] == SEP then [[]] + rest else [[s[0]] + rest[0]] + rest[1..]
  }

  function Join(parts: seq<string>): string {
    if parts == [] then []
    else if |parts| == 1 then parts[0]
    else parts[0] + [SEP] + Join(parts[1..])
  }

  /** `join_path` and `child_path`: an empty prefix adds no separator. */
  function Child(prefix: string, name: string): string {
    if prefix == [] then name else prefix + [SEP] + name
  }

  lemma {:induction false} SplitFirst(p: string, rest: string)
    requires SEP !in p
    ensures Split(p) == [p]
    ensures Split(p + [SEP] + rest) == [p] + Split(rest)
  {
    if p == [] {
      assert p + [SEP] + rest == [SEP] + rest;
    } else {
      SplitFirst(p[1..], rest);
      assert (p + [SEP] + rest)[1..] == p[1..] + [SEP] + rest;
      assert p == [p[0]] + p[1..];
    }
  }

  /** Splitting undoes joining: a path determines its components. */
  lemma {:induction false} SplitJoin(parts: seq<string>)
    requires parts != []
    requires forall p | p in parts :: SEP !in p
    ensures Split(Join(parts)) == parts
  {
    var first, rest := parts[0], parts[1..];
    assert parts == [first] + rest;
    if rest == [] {
      SplitFirst(first, []);
    } else {
      SplitJoin(rest);
      SplitFirst(first, Join(rest));
    }
  }

  lemma {:induction false} JoinSplit(s: string)
    ensures Join(Split(s)) == s
  {
    if s != [] {
      JoinSplit(s[1..]);
      var rest := Split(s[1..]);
      if s[0] == SEP {
        assert ([[]] + rest)[1..] == rest;
      } else {
        var parts := [[s[0]] + rest[0]] + rest[1..];
        assert parts[1..] == rest[1..];
        assert s == [s[0]] + s[1..];
      }
    }
  }

  lemma {:induction false} JoinAppend(parts: seq<string>, last: string)
    requires parts != []
    ensures Join(parts + [last]) == Join(parts) + [SEP] + last
  {
    if |parts| > 1 {
      JoinAppend(parts[1..], last);
      assert (parts + [last])[1..] == parts[1..] + [last];
    } else {
      assert (parts + [last])[1..] == [last];
    }
  }

  /** The path of these names: joined by separators, from the first that is not empty. */
  ghost predicate PathOf(names: seq<string>, path: string) {
    exists d :: 0 <= d <= |names| && (forall i | 0 <= i < d :: names[i] == []) && (d < |names| ==> names[d] != [])
      && path == Join(names[d..])
  }

  lemma PathPastEmpty(rest: seq<string>, path: string)
    requires PathOf(rest, path)
    ensures PathOf([[]] + rest, path)
  {
    var names := [[]] + rest;
    var d :| 0 <= d <= |rest| && (forall i | 0 <= i < d :: rest[i] == []) && (d < |rest| ==> rest[d] != [])
      && path == Join(rest[d..]);
    assert names[d + 1..] == rest[d..];
  }

  lemma PathHere(names: seq<string>, path: string)
    requires names != [] && names[0] != [] && path == Join(names)
    ensures PathOf(names, path)
  {
    assert names[0..] == names;
  }

  // ----- UTF-16 (section 2.2 of RFC 2781), lossy as `String::from_utf16_lossy` -----

  const REPLACEMENT: char := '\U{FFFD}'

  predicate IsHigh(u: u16) { 0xD800 <= u < 0xDC00 }

  predicate IsLow(u: u16) { 0xDC00 <= u < 0xE000 }

  /** An unpaired surrogate becomes the replacement character. */
  function FromUtf16Lossy(units: seq<u16>): string {
    if units == [] then []
    else if !IsHigh(units[0]) && !IsLow(units[0]) then [units[0] as char] + FromUtf16Lossy(units[1..])
    else if IsHigh(units[0]) && |units| > 1 && IsLow(units[1]) then
      [(0x1_0000 + (units[0] as int - 0xD800) * 0x400 + (units[1] as int - 0xDC00)) as char]
        + FromUtf16Lossy(units[2..])
    else [REPLACEMENT] + FromUtf16Lossy(units[1..])
  }

  function CharUnits(c: char): seq<u16> {
    var v := c as int;
    if v < 0x1_0000 then [v] else [0xD800 + (v - 0x1_0000) / 0x400, 0xDC00 + (v - 0x1_0000) % 0x400]
  }

  function ToUtf16(s: string): seq<u16> {
    if s == [] then [] else CharUnits(s[0]) + ToUtf16(s[1..])
  }

  /** One unit for a character of the basic plane; otherwise a high and a low surrogate that carry ten bits each. */
  predicate IsUnits(units: seq<u16>, v: int) {
    || (|units| == 1 && v == units[0] as int)
    || (|units| == 2 && 0xD800 <= units[0] < 0xDC00 <= units[1] < 0xE000
        && v == 0x1_0000 + 0x400 * (units[0] as int - 0xD800) + (units[1] as int - 0xDC00))
  }

  lemma CharUnitsExact(c: char)
    ensures IsUnits(CharUnits(c), c as int)
  {
  }

  lemma FirstCharDecodes(c: char, rest: seq<u16>)
    ensures FromUtf16Lossy(CharUnits(c) + rest) == [c] + FromUtf16Lossy(rest)
  {
    var u := CharUnits(c) + rest;
    if c as int < 0x1_0000 {
      assert u[1..] == rest;
    } else {
      assert u[2..] == rest;
    }
  }

  /** What follows a string does not change how it is decoded. */
  lemma {:induction false} Utf16Append(s: string, rest: seq<u16>)
    ensures FromUtf16Lossy(ToUtf16(s) + rest) == s + FromUtf16Lossy(rest)
  {
    if s == [] {
      assert ToUtf16(s) + rest == rest;
    } else {
      var more := ToUtf16(s[1..]) + rest;
      assert ToUtf16(s) + rest == CharUnits(s[0]) + more;
      FirstCharDecodes(s[0], more);
      Utf16Append(s[1..], rest);
      assert [s[0]] + (s[1..] + FromUtf16Lossy(rest)) == s + FromUtf16Lossy(rest);
    }
  }

  lemma Utf16RoundTrip(s: string)
    ensures FromUtf16Lossy(ToUtf16(s)) == s
  {
    var none: seq<u16> := [];
    Utf16Append(s, none);
    assert ToUtf16(s) + none == ToUtf16(s) && s + FromUtf16Lossy(none) == s;
  }

  /** A surrogate without its partner becomes one replacement character. */
  lemma LoneSurrogate(u: u16, rest: seq<u16>)
    requires 0xD800 <= u < 0xE000 && (u < 0xDC00 ==> rest == [] || !(0xDC00 <= rest[0] < 0xE000))
    ensures FromUtf16Lossy([u] + rest) == [0xFFFD as char] + FromUtf16Lossy(rest)
  {
    assert ([u] + rest)[1..] == rest;
  }

  // ----- what a carved name may contain -----

  /** `char::is_control`: general category Cc. */
  predicate IsControl(c: char) {
    c as int < 0x20 || 0x7F <= c as int < 0xA0
  }

  // ----- UTF-8 (section 3 of RFC 3629), the bytes of a `String` -----

  function Utf8Char(c: char): (b: Buf)
    ensures 0 < |b| && (|b| == 1 <==> c as int < 0x80)
  {
    var v := c as int;
    if v < 0x80 then [v]
    else if v < 0x800 then [0xC0 + v / 64, 0x80 + v % 64]
    else if v < 0x1_0000 then [0xE0 + v / 4096, 0x80 + v / 64 % 64, 0x80 + v % 64]
    else [0xF0 + v / 262144, 0x80 + v / 4096 % 64, 0x80 + v / 64 % 64, 0x80 + v % 64]
  }

  /** The code point that a sequence of UTF-8 bytes stands for: the bits that the lead byte and the continuation bytes
      carry. */
  predicate Utf8Of(b: Buf, v: int) {
    || (|b| == 1 && b[0] < 0x80 && v == b[0])
    || (|b| == 2 && 0xC0 <= b[0] < 0xE0 && IsTail(b[1])
        && v == (b[0] as int - 0xC0) * 64 + (b[1] as int - 0x80) && v >= 0x80)
    || (|b| == 3 && 0xE0 <= b[0] < 0xF0 && IsTail(b[1]) && IsTail(b[2])
        && v == (b[0] as int - 0xE0) * 4096 + (b[1] as int - 0x80) * 64 + (b[2] as int - 0x80)
        && v >= 0x800)
    || (|b| == 4 && 0xF0 <= b[0] < 0xF8 && IsTail(b[1]) && IsTail(b[2]) && IsTail(b[3])
        && v == (b[0] as int - 0xF0) * 262144 + (b[1] as int - 0x80) * 4096 + (b[2] as int - 0x80) * 64
                + (b[3] as int - 0x80) && v >= 0x1_0000)
  }

  predicate IsTail(b: byte) { 0x80 <= b < 0xC0 }

  /** A character's bytes decode to it, in the shortest form. */
  lemma Utf8CharDecodes(c: char)
    ensures Utf8Of(Utf8Char(c), c as int)
  {
    var v := c as int;
    assert v == v / 64 * 64 + v % 64 && v / 64 == v / 64 / 64 * 64 + v / 64 % 64;
    assert v / 64 / 64 == v / 4096 && v / 4096 == v / 4096 / 64 * 64 + v / 4096 % 64 && v / 4096 / 64 == v / 262144;
  }

  /** `as_bytes`; its length is what `str::len` counts. */
  function Utf8(s: string): (b: Buf)
    ensures |s| <= |b|
  {
    if s == [] then [] else Utf8Char(s[0]) + Utf8(s[1..])
  }

  // ----- bytes as characters (the compressed-name form maps them one to one) -----

  function Latin(b: Buf): (s: string)
    ensures |s| == |b|
  {
    seq(|b|, i requires 0 <= i < |b| => b[i] as char)
  }

  predicate IsAscii(s: string) {
    forall i | 0 <= i < |s| :: s[i] as int < 0x80
  }

  function CharAsRead(c: char): (r: string)
    ensures 0 < |r| == |Utf8Char(c)| && (SEP in r <==> c == SEP)
    ensures c as int < 0x80 ==> r == [c]
  {
    var r := Latin(Utf8Char(c));
    assert c == SEP ==> r == [SEP];
    assert c != SEP ==> forall i | 0 <= i < |r| :: r[i] != SEP;
    r
  }

  lemma LatinAppend(a: Buf, b: Buf)
    ensures Latin(a + b) == Latin(a) + Latin(b)
  {
  }

  /** How a name that was written as UTF-8 is read: byte by byte. */
  function AsRead(s: string): (r: string)
    ensures r == Latin(Utf8(s))
  {
    if s == [] then []
    else
      LatinAppend(Utf8Char(s[0]), Utf8(s[1..]));
      CharAsRead(s[0]) + AsRead(s[1..])
  }

  lemma {:induction false} AsReadAppend(a: string, b: string)
    ensures AsRead(a + b) == AsRead(a) + AsRead(b)
  {
    if a == [] {
      assert a + b == b;
    } else {
      assert (a + b)[1..] == a[1..] + b;
      AsReadAppend(a[1..], b);
      assert CharAsRead(a[0]) + (AsRead(a[1..]) + AsRead(b)) == CharAsRead(a[0]) + AsRead(a[1..]) + AsRead(b);
    }
  }

  lemma {:induction false} AsReadShort(s: string)
    ensures |Utf8(s)| == |s| <==> IsAscii(s)
  {
    if s != [] {
      AsReadShort(s[1..]);
      if IsAscii(s) {
        assert forall i | 0 <= i < |s[1..]| :: s[1..][i] == s[i + 1];
      } else if s[0] as int < 0x80 {
        var i :| 0 <= i < |s| && s[i] as int >= 0x80;
        assert s[1..][i - 1] == s[i];
      }
    }
  }

  /** A name is read as it was written if and only if it is ASCII. */
  lemma {:induction false} AsReadIff(s: string)
    ensures AsRead(s) == s <==> IsAscii(s)
  {
    AsReadShort(s);
    if IsAscii(s) {
      AsciiAsRead(s);
    }
  }

  lemma {:induction false} AsciiAsRead(s: string)
    requires IsAscii(s)
    ensures AsRead(s) == s
  {
    if s != [] {
      assert forall i | 0 <= i < |s[1..]| :: s[1..][i] == s[i + 1];
      AsciiAsRead(s[1..]);
      assert s == [s[0]] + s[1..];
    }
  }

  /** Only a separator is read as one. */
  lemma {:induction false} AsReadSeparators(s: string)
    ensures SEP in AsRead(s) <==> SEP in s
  {
    if s != [] {
      AsReadSeparators(s[1..]);
      assert s == [s[0]] + s[1..];
    }
  }

  lemma {:induction false} CharAsReadUpper(c: char)
    ensures Upper(CharAsRead(c)) == CharAsRead(UpperChar(c))
  {
  }

  lemma UpperAppend(a: string, b: string)
    ensures Upper(a + b) == Upper(a) + Upper(b)
  {
  }

  /** Folding to upper case and reading commute. */
  lemma {:induction false} AsReadUpper(s: string)
    ensures Upper(AsRead(s)) == AsRead(Upper(s))
  {
    if s != [] {
      AsReadUpper(s[1..]);
      CharAsReadUpper(s[0]);
      assert Upper(s)[1..] == Upper(s[1..]);
      UpperAppend(CharAsRead(s[0]), AsRead(s[1..]));
    }
  }

  lemma {:induction false} Utf8CharPrefix(c: char, d: char, a: Buf, b: Buf)
    requires Utf8Char(c) + a == Utf8Char(d) + b
    ensures c == d && a == b
  {
    var x, y := Utf8Char(c), Utf8Char(d);
    assert x[0] == (x + a)[0] == (y + b)[0] == y[0];
    assert |x| == |y|;
    assert x == (x + a)[..|x|] == y;
    assert a == (x + a)[|x|..] == b;
    Utf8CharInjective(c, d);
  }

  lemma {:induction false} Utf8CharInjective(c: char, d: char)
    requires Utf8Char(c) == Utf8Char(d)
    ensures c == d
  {
    var v, w := c as int, d as int;
    var x, y := Utf8Char(c), Utf8Char(d);
    assert |x| == |y|;
    if |x| == 1 {
    } else if |x| == 2 {
      assert x[0] == y[0] && x[1] == y[1];
    } else if |x| == 3 {
      assert x[0] == y[0] && x[1] == y[1] && x[2] == y[2];
      assert v / 64 == w / 64 by {
        assert v / 64 / 64 == v / 4096 && w / 64 / 64 == w / 4096;
      }
    } else {
      assert x[0] == y[0] && x[1] == y[1] && x[2] == y[2] && x[3] == y[3];
      assert v / 4096 == w / 4096 by {
        assert v / 4096 / 64 == v / 262144 && w / 4096 / 64 == w / 262144;
      }
      assert v / 64 == w / 64 by {
        assert v / 64 / 64 == v / 4096 && w / 64 / 64 == w / 4096;
      }
    }
  }

  lemma {:induction false} Utf8Injective(a: string, b: string)
    requires Utf8(a) == Utf8(b)
    ensures a == b
  {
    if a != [] && b != [] {
      Utf8CharPrefix(a[0], b[0], Utf8(a[1..]), Utf8(b[1..]));
      Utf8Injective(a[1..], b[1..]);
      assert a == [a[0]] + a[1..] && b == [b[0]] + b[1..];
    }
  }

  lemma {:induction false} LatinInjective(a: Buf, b: Buf)
    requires Latin(a) == Latin(b)
    ensures a == b
  {
    forall i | 0 <= i < |a| ensures a[i] == b[i] {
      assert Latin(a)[i] == Latin(b)[i];
    }
  }

  /** Names that differ by more than case are still read as names that do. */
  lemma {:induction false} AsReadFolds(a: string, b: string)
    ensures Upper(AsRead(a)) == Upper(AsRead(b)) <==> Upper(a) == Upper(b)
  {
    AsReadUpper(a);
    AsReadUpper(b);
    if AsRead(Upper(a)) == AsRead(Upper(b)) {
      LatinInjective(Utf8(Upper(a)), Utf8(Upper(b)));
      Utf8Injective(Upper(a), Upper(b));
    }
  }

  lemma {:induction false} AsReadChild(prefix: string, name: string)
    ensures AsRead(Child(prefix, name)) == Child(AsRead(prefix), AsRead(name))
  {
    if prefix != [] {
      AsReadAppend(prefix + [SEP], name);
      AsReadAppend(prefix, [SEP]);
      AsciiAsRead([SEP]);
    }
  }

  /** Consecutive little-endian code units; an odd last byte is dropped (`chunks_exact(2)`). */
  function Units(b: Buf): (u: seq<u16>)
    ensures |u| == |b| / 2
  {
    seq(|b| / 2, i requires 0 <= i < |b| / 2 => U16At(b, 2 * i))
  }

  lemma UnitsExact(b: Buf, i: nat)
    requires 2 * i + 2 <= |b|
    ensures i < |Units(b)| && Units(b)[i] as int == b[2 * i] as int + 256 * b[2 * i + 1] as int
  {
  }
}
