/** String and number helpers with the semantics of the Qt calls the uploader
    uses (QString::trimmed, toLower, contains, endsWith, split, toInt,
    QString::number, QString::arg with a '0' fill, QByteArray::toHex().toUpper()).
    Characters are treated as ASCII: whitespace and case folding cover only
    the ASCII range. */
module Text {

  const MinInt32: int := -0x8000_0000
  const MaxInt32: int := 0x7FFF_FFFF

  predicate InInt32(n: int) { MinInt32 <= n <= MaxInt32 }

  datatype Option<T> = None | Some(value: T)

  // ---------------------------------------------------------------- trimming

  /** QChar::isSpace restricted to ASCII. */
  predicate IsSpace(c: char) {
    c == ' ' || c == '\t' || c == '\n' || c == '\r' || c == '\U{B}' || c == '\U{C}'
  }

  predicate NoSpace(s: string) { forall i :: 0 <= i < |s| ==> !IsSpace(s[i]) }

  function TrimStart(s: string): (r: string)
    ensures |r| <= |s| && r == s[|s| - |r|..]
    ensures r == [] || !IsSpace(r[0])
  {
    if |s| > 0 && IsSpace(s[0]) then TrimStart(s[1..]) else s
  }

  function TrimEnd(s: string): (r: string)
    ensures |r| <= |s| && r == s[..|r|]
    ensures r == [] || !IsSpace(r[|r| - 1])
  {
    if |s| > 0 && IsSpace(s[|s| - 1]) then TrimEnd(s[..|s| - 1]) else s
  }

  /** QString::trimmed: whitespace removed from both ends. */
  function Trim(s: string): string { TrimEnd(TrimStart(s)) }

  lemma {:induction false} TrimOfNoSpace(s: string)
    requires NoSpace(s)
    ensures Trim(s) == s
  {
    assert TrimStart(s) == s;
    assert TrimEnd(s) == s;
  }

  lemma {:induction false} TrimEndOfTrimmedStart(s: string)
    requires s == [] || !IsSpace(s[0])
    ensures TrimEnd(s) == [] || !IsSpace(TrimEnd(s)[0])
    ensures TrimStart(TrimEnd(s)) == TrimEnd(s)
  {
    if |s| > 0 && IsSpace(s[|s| - 1]) {
      TrimEndOfTrimmedStart(s[..|s| - 1]);
    }
  }

  /** Trimming twice is trimming once. */
  lemma TrimIdempotent(s: string)
    ensures Trim(Trim(s)) == Trim(s)
  {
    var t := TrimStart(s);
    TrimEndOfTrimmedStart(t);
    var u := TrimEnd(t);
    assert u == [] || !IsSpace(u[|u| - 1]);
  }

  lemma {:induction false} TrimStartKeeps(s: string, k: nat)
    requires k < |s| && !IsSpace(s[k])
    ensures TrimStart(s) != [] && |s| - |TrimStart(s)| <= k
    decreases k
  {
    if IsSpace(s[0]) {
      TrimStartKeeps(s[1..], k - 1);
    }
  }

  lemma {:induction false} TrimEndKeeps(s: string, k: nat)
    requires k < |s| && !IsSpace(s[k])
    ensures k < |TrimEnd(s)|
    decreases |s|
  {
    if IsSpace(s[|s| - 1]) {
      TrimEndKeeps(s[..|s| - 1], k);
    }
  }

  /** A string holding a non-space character does not trim to nothing. */
  lemma TrimNonBlank(s: string, k: nat)
    requires k < |s| && !IsSpace(s[k])
    ensures Trim(s) != ""
  {
    TrimStartKeeps(s, k);
    var t := TrimStart(s);
    var j := k - (|s| - |t|);
    assert t[j] == s[k];
    TrimEndKeeps(t, j);
  }

  // ---------------------------------------------------------------- case

  /** QChar::toLower restricted to ASCII. */
  function Lower(c: char): char {
    if 'A' <= c <= 'Z' then (c as int + 32) as char else c
  }

  function ToLower(s: string): (r: string)
    ensures |r| == |s|
  {
    seq(|s|, i requires 0 <= i < |s| => Lower(s[i]))
  }

  function Upper(c: char): char {
    if 'a' <= c <= 'z' then (c as int - 32) as char else c
  }

  function ToUpper(s: string): (r: string)
    ensures |r| == |s|
  {
    seq(|s|, i requires 0 <= i < |s| => Upper(s[i]))
  }

  lemma LowerIdempotent(s: string)
    ensures ToLower(ToLower(s)) == ToLower(s)
  {
  }

  lemma {:induction false} TrimStartLower(s: string)
    ensures TrimStart(ToLower(s)) == ToLower(TrimStart(s))
    decreases |s|
  {
    if |s| > 0 && IsSpace(s[0]) {
      assert ToLower(s)[1..] == ToLower(s[1..]);
      TrimStartLower(s[1..]);
    }
  }

  lemma {:induction false} TrimEndLower(s: string)
    ensures TrimEnd(ToLower(s)) == ToLower(TrimEnd(s))
    decreases |s|
  {
    if |s| > 0 && IsSpace(s[|s| - 1]) {
      assert ToLower(s)[..|s| - 1] == ToLower(s[..|s| - 1]);
      TrimEndLower(s[..|s| - 1]);
    }
  }

  /** Lower-casing does not touch whitespace, so it commutes with trimming. */
  lemma TrimLowerCommute(s: string)
    ensures Trim(ToLower(s)) == ToLower(Trim(s))
  {
    TrimStartLower(s);
    TrimEndLower(TrimStart(s));
  }

  // ---------------------------------------------------------------- search

  /** QString::endsWith, case-sensitive. */
  predicate EndsWith(s: string, suffix: string) {
    |suffix| <= |s| && s[|s| - |suffix|..] == suffix
  }

  /** QString::contains of a substring, case-sensitive. */
  predicate Contains(s: string, pattern: string)
    decreases |s|
  {
    (|pattern| <= |s| && s[..|pattern|] == pattern) || (|s| > 0 && Contains(s[1..], pattern))
  }

  lemma {:induction false} ContainsAt(s: string, pattern: string, k: nat)
    requires k + |pattern| <= |s| && s[k..k + |pattern|] == pattern
    ensures Contains(s, pattern)
    decreases k
  {
    if k > 0 {
      assert s[1..][k - 1..k - 1 + |pattern|] == s[k..k + |pattern|];
      ContainsAt(s[1..], pattern, k - 1);
    }
  }

  lemma {:induction false} ContainsInside(s: string, pattern: string, prefix: string, suffix: string)
    requires Contains(s, pattern)
    ensures Contains(prefix + s + suffix, pattern)
  {
    var k := ContainsWitness(s, pattern);
    var t := prefix + s + suffix;
    assert t[|prefix| + k..|prefix| + k + |pattern|] == s[k..k + |pattern|];
    ContainsAt(t, pattern, |prefix| + k);
  }

  lemma {:induction false} ContainsWitness(s: string, pattern: string) returns (k: nat)
    requires Contains(s, pattern)
    ensures k + |pattern| <= |s| && s[k..k + |pattern|] == pattern
    decreases |s|
  {
    if |pattern| <= |s| && s[..|pattern|] == pattern {
      k := 0;
    } else {
      var j := ContainsWitness(s[1..], pattern);
      assert s[1..][j..j + |pattern|] == s[j + 1..j + 1 + |pattern|];
      k := j + 1;
    }
  }

  // ---------------------------------------------------------------- split / join

  /** QString::split on one character, keeping empty parts: the parts between
      consecutive separators, in order. */
  function Split(s: string, sep: char): (r: seq<string>)
    ensures |r| >= 1
    decreases |s|
  {
    if |s| == 0 then [""]
    else if s[0] == sep then [""] + Split(s[1..], sep)
    else var rest := Split(s[1..], sep); [[s[0]] + rest[0]] + rest[1..]
  }

  /** The parts glued back together with the separator between them. */
  function Join(parts: seq<string>, sep: char): string
    requires |parts| >= 1
    decreases |parts|
  {
    if |parts| == 1 then parts[0] else parts[0] + [sep] + Join(parts[1..], sep)
  }

  function Count(s: string, c: char): nat
    decreases |s|
  {
    if |s| == 0 then 0 else (if s[0] == c then 1 else 0) + Count(s[1..], c)
  }

  lemma {:induction false} CountAppend(a: string, b: string, c: char)
    ensures Count(a + b, c) == Count(a, c) + Count(b, c)
    decreases |a|
  {
    if |a| == 0 {
      assert a + b == b;
    } else {
      assert (a + b)[1..] == a[1..] + b;
      CountAppend(a[1..], b, c);
    }
  }

  lemma {:induction false} SplitPartsFree(s: string, sep: char)
    ensures forall k :: 0 <= k < |Split(s, sep)| ==> sep !in Split(s, sep)[k]
    decreases |s|
  {
    if |s| > 0 {
      SplitPartsFree(s[1..], sep);
    }
  }

  /** One part per separator, plus one. */
  lemma {:induction false} SplitCount(s: string, sep: char)
    ensures |Split(s, sep)| == Count(s, sep) + 1
    decreases |s|
  {
    if |s| > 0 {
      SplitCount(s[1..], sep);
    }
  }

  /** Splitting then joining gives the string back. */
  lemma {:induction false} JoinSplit(s: string, sep: char)
    ensures Join(Split(s, sep), sep) == s
    decreases |s|
  {
    if |s| > 0 {
      var rest := Split(s[1..], sep);
      JoinSplit(s[1..], sep);
      if s[0] != sep && |rest| > 1 {
        assert ([[s[0]] + rest[0]] + rest[1..])[1..] == rest[1..];
      }
    }
  }

  lemma {:induction false} SplitPrefix(p: string, t: string, sep: char)
    requires sep !in p
    ensures Split(p + t, sep) == [p + Split(t, sep)[0]] + Split(t, sep)[1..]
    decreases |p|
  {
    if |p| > 0 {
      assert (p + t)[0] == p[0] != sep;
      assert (p + t)[1..] == p[1..] + t;
      SplitPrefix(p[1..], t, sep);
      assert [p[0]] + (p[1..] + Split(t, sep)[0]) == p + Split(t, sep)[0];
    } else {
      var parts := Split(t, sep);
      assert p + t == t;
      assert p + parts[0] == parts[0];
      assert [parts[0]] + parts[1..] == parts;
    }
  }

  /** Joining parts that do not contain the separator, then splitting, gives
      the parts back. */
  lemma {:induction false} SplitJoin(parts: seq<string>, sep: char)
    requires |parts| >= 1
    requires forall k :: 0 <= k < |parts| ==> sep !in parts[k]
    ensures Split(Join(parts, sep), sep) == parts
    decreases |parts|
  {
    if |parts| == 1 {
      SplitPrefix(parts[0], "", sep);
      assert parts[0] + "" == parts[0];
      assert Split("", sep) == [""];
      assert parts == [parts[0]];
    } else {
      var rest := Join(parts[1..], sep);
      SplitJoin(parts[1..], sep);
      assert Join(parts, sep) == parts[0] + ([sep] + rest);
      SplitPrefix(parts[0], [sep] + rest, sep);
      assert ([sep] + rest)[0] == sep;
      assert ([sep] + rest)[1..] == rest;
      assert Split([sep] + rest, sep) == [""] + parts[1..];
      assert parts[0] + "" == parts[0];
      assert parts == [parts[0]] + parts[1..];
    }
  }

  /** The first part of a split is the text before the first separator. */
  lemma {:induction false} SplitFirstIsPrefix(s: string, sep: char)
    ensures |Split(s, sep)[0]| <= |s| && Split(s, sep)[0] == s[..|Split(s, sep)[0]|]
    ensures sep !in Split(s, sep)[0]
    ensures |Split(s, sep)[0]| < |s| ==> s[|Split(s, sep)[0]|] == sep
    decreases |s|
  {
    if |s| > 0 && s[0] != sep {
      SplitFirstIsPrefix(s[1..], sep);
    }
  }

  /** QString::split with QString::SkipEmptyParts. */
  function SplitNonEmpty(s: string, sep: char): (r: seq<string>)
    ensures forall k :: 0 <= k < |r| ==> r[k] != ""
  {
    DropEmpty(Split(s, sep))
  }

  function DropEmpty(parts: seq<string>): (r: seq<string>)
    ensures forall k :: 0 <= k < |r| ==> r[k] != ""
    decreases |parts|
  {
    if |parts| == 0 then []
    else if parts[0] == "" then DropEmpty(parts[1..])
    else [parts[0]] + DropEmpty(parts[1..])
  }

  /** The last part of a split: the text after the last separator. */
  function LastPart(s: string, sep: char): (r: string)
    ensures sep !in r
  {
    SplitPartsFree(s, sep);
    Split(s, sep)[|Split(s, sep)| - 1]
  }

  /** Whatever precedes the last separator, the last part is what follows it. */
  lemma {:induction false} SplitLast(p: string, t: string, sep: char)
    requires sep !in t
    ensures |Split(p + [sep] + t, sep)| >= 2
    ensures LastPart(p + [sep] + t, sep) == t
    decreases |p|
  {
    var s := p + [sep] + t;
    if |p| == 0 {
      assert s == [sep] + t && s[1..] == t;
      SplitPrefix(t, "", sep);
      assert t + "" == t;
      assert Split(t, sep) == [t];
    } else {
      assert s[1..] == p[1..] + [sep] + t;
      SplitLast(p[1..], t, sep);
    }
  }

  /** A string with no separator is its own last part. */
  lemma SplitNone(t: string, sep: char)
    requires sep !in t
    ensures Split(t, sep) == [t]
  {
    SplitPrefix(t, "", sep);
    assert t + "" == t;
  }

  /** QString::replace of every occurrence of `pat`, scanning left to right. */
  function ReplaceAll(s: string, pat: string, rep: string): (r: string)
    requires |pat| > 0
    ensures |pat| == |rep| ==> |r| == |s|
    decreases |s|
  {
    if |pat| <= |s| && s[..|pat|] == pat then rep + ReplaceAll(s[|pat|..], pat, rep)
    else if |s| == 0 then ""
    else [s[0]] + ReplaceAll(s[1..], pat, rep)
  }

  /** Without an occurrence nothing is replaced. */
  lemma {:induction false} ReplaceAbsent(s: string, pat: string, rep: string)
    requires |pat| > 0 && !Contains(s, pat)
    ensures ReplaceAll(s, pat, rep) == s
    decreases |s|
  {
    if |s| > 0 {
      ReplaceAbsent(s[1..], pat, rep);
    }
  }

  /** A pattern at the end of a string whose other characters cannot start it
      is the only one replaced. */
  lemma {:induction false} ReplaceAtEnd(stem: string, pat: string, rep: string)
    requires |pat| > 0 && pat[0] !in stem
    ensures ReplaceAll(stem + pat, pat, rep) == stem + rep
    decreases |stem|
  {
    var s := stem + pat;
    if |stem| == 0 {
      assert s == pat && s[|pat|..] == "";
      assert rep + "" == rep;
    } else {
      assert s[0] == stem[0] != pat[0];
      assert s[1..] == stem[1..] + pat;
      ReplaceAtEnd(stem[1..], pat, rep);
    }
  }

  /** QString::endsWith of any of several suffixes. */
  predicate EndsWithAny(s: string, suffixes: seq<string>) {
    exists k :: 0 <= k < |suffixes| && EndsWith(s, suffixes[k])
  }

  // ---------------------------------------------------------------- integers

  predicate IsDigit(c: char) { '0' <= c <= '9' }

  predicate AllDigits(s: string) { forall i :: 0 <= i < |s| ==> IsDigit(s[i]) }

  function DigitValue(c: char): nat
    requires IsDigit(c)
  {
    c as int - '0' as int
  }

  function DigitChar(d: nat): char
    requires d < 10
  {
    ('0' as int + d) as char
  }

  /** The number a run of decimal digits denotes (leading zeros allowed). */
  function DigitsValue(s: string): nat
    requires AllDigits(s)
    decreases |s|
  {
    if |s| == 0 then 0 else DigitsValue(s[..|s| - 1]) * 10 + DigitValue(s[|s| - 1])
  }

  /** Decimal digits of a natural number, without leading zeros. */
  function NatToString(n: nat): (r: string)
    ensures |r| >= 1 && AllDigits(r)
    decreases n
  {
    if n < 10 then [DigitChar(n)] else NatToString(n / 10) + [DigitChar(n % 10)]
  }

  /** QString::number on an integer. */
  function IntToString(n: int): string {
    if n < 0 then "-" + NatToString(-n) else NatToString(n)
  }

  /** QString::toInt in base 10: optional surrounding whitespace, an optional
      sign, at least one digit; anything else, or a value outside the 32-bit
      range, gives 0. */
  function ToInt(s: string): (r: int)
    ensures InInt32(r)
  {
    ParseTrimmedInt(Trim(s))
  }

  function ParseTrimmedInt(t: string): (r: int)
    ensures InInt32(r)
  {
    if |t| >= 2 && (t[0] == '-' || t[0] == '+') && AllDigits(t[1..]) then
      var v: int := if t[0] == '-' then -(DigitsValue(t[1..]) as int) else DigitsValue(t[1..]);
      if InInt32(v) then v else 0
    else if |t| >= 1 && AllDigits(t) then
      var v := DigitsValue(t);
      if v <= MaxInt32 then v else 0
    else 0
  }

  lemma {:induction false} DigitsOfNatToString(n: nat)
    ensures DigitsValue(NatToString(n)) == n
    decreases n
  {
    if n >= 10 {
      var s := NatToString(n);
      assert s[..|s| - 1] == NatToString(n / 10);
      DigitsOfNatToString(n / 10);
    }
  }

  lemma NoSpaceOfDigits(s: string)
    requires AllDigits(s)
    ensures NoSpace(s)
  {
  }

  /** The decimal digits of n read as n when that fits in 32 bits. */
  lemma ToIntOfNatString(n: nat)
    ensures ToInt(NatToString(n)) == if n <= MaxInt32 then n else 0
  {
    var s := NatToString(n);
    NoSpaceOfDigits(s);
    TrimOfNoSpace(s);
    DigitsOfNatToString(n);
    assert IsDigit(s[0]);
    assert !(s[0] == '-' || s[0] == '+');
  }

  function Power10(w: nat): (r: nat)
    ensures r >= 1
  {
    if w == 0 then 1 else 10 * Power10(w - 1)
  }

  /** w digits denote less than 10^w. */
  lemma {:induction false} DigitsValueBound(s: string)
    requires AllDigits(s)
    ensures DigitsValue(s) < Power10(|s|)
    decreases |s|
  {
    if |s| > 0 {
      DigitsValueBound(s[..|s| - 1]);
    }
  }

  /** QString::toInt on plain digits whose value fits in 32 bits gives that value. */
  lemma ToIntOfDigits(s: string)
    requires |s| >= 1 && AllDigits(s) && DigitsValue(s) <= MaxInt32
    ensures ToInt(s) == DigitsValue(s)
  {
    assert ToInt(s) == ParseTrimmedInt(Trim(s));
    NoSpaceOfDigits(s);
    TrimOfNoSpace(s);
    assert IsDigit(s[0]);
    assert !(s[0] == '-' || s[0] == '+');
  }

  function Zeros(n: nat): (r: string)
    ensures |r| == n && AllDigits(r)
  {
    seq(n, _ => '0')
  }

  lemma {:induction false} DigitsValueZerosPrefix(z: nat, d: string)
    requires AllDigits(d)
    ensures DigitsValue(Zeros(z) + d) == DigitsValue(d)
    decreases |d|
  {
    if |d| == 0 {
      assert Zeros(z) + d == Zeros(z);
      ZerosValue(z);
    } else {
      assert (Zeros(z) + d)[..|Zeros(z) + d| - 1] == Zeros(z) + d[..|d| - 1];
      DigitsValueZerosPrefix(z, d[..|d| - 1]);
    }
  }

  lemma {:induction false} ZerosValue(z: nat)
    ensures DigitsValue(Zeros(z)) == 0
    decreases z
  {
    if z > 0 {
      assert Zeros(z)[..z - 1] == Zeros(z - 1);
      ZerosValue(z - 1);
    }
  }

  /** The digits of n left-padded with '0' to at least `width` characters. */
  function ZeroPad(n: nat, width: nat): (r: string)
    ensures AllDigits(r)
  {
    var d := NatToString(n);
    (if |d| < width then Zeros(width - |d|) else "") + d
  }

  lemma ZeroPadValue(n: nat, width: nat)
    ensures DigitsValue(ZeroPad(n, width)) == n
    ensures |ZeroPad(n, width)| >= width && |ZeroPad(n, width)| >= 1
  {
    var d := NatToString(n);
    DigitsOfNatToString(n);
    if |d| < width {
      DigitsValueZerosPrefix(width - |d|, d);
    } else {
      assert ZeroPad(n, width) == d;
    }
  }

  // ---------------------------------------------------------------- hex

  newtype Byte = x: int | 0 <= x < 256

  function HexDigit(d: nat): char
    requires d < 16
  {
    if d < 10 then ('0' as int + d) as char else ('A' as int + d - 10) as char
  }

  predicate IsHexUpper(c: char) { '0' <= c <= '9' || 'A' <= c <= 'F' }

  function HexValue(c: char): nat {
    if '0' <= c <= '9' then c as int - '0' as int
    else if 'A' <= c <= 'F' then c as int - 'A' as int + 10
    else 0
  }

  /** QByteArray::toHex().toUpper(): two upper-case hex digits per byte. */
  function HexUpper(bytes: seq<Byte>): (r: string)
    ensures |r| == 2 * |bytes|
    decreases |bytes|
  {
    if |bytes| == 0 then []
    else [HexDigit(bytes[0] as int / 16), HexDigit(bytes[0] as int % 16)] + HexUpper(bytes[1..])
  }

  function FromHex(s: string): seq<Byte>
    decreases |s|
  {
    if |s| < 2 then []
    else [((HexValue(s[0]) * 16 + HexValue(s[1])) % 256) as Byte] + FromHex(s[2..])
  }

  /** Every character of the encoding is an upper-case hex digit. */
  lemma {:induction false} HexUpperAlphabet(bytes: seq<Byte>)
    ensures forall i :: 0 <= i < |HexUpper(bytes)| ==>
      IsHexUpper(HexUpper(bytes)[i])
    decreases |bytes|
  {
    if |bytes| > 0 {
      HexUpperAlphabet(bytes[1..]);
    }
  }

  /** The hex encoding can be decoded, so it loses nothing. */
  lemma {:induction false} FromHexUpper(bytes: seq<Byte>)
    ensures FromHex(HexUpper(bytes)) == bytes
    decreases |bytes|
  {
    if |bytes| > 0 {
      var h := HexUpper(bytes);
      var b := bytes[0] as int;
      var hi, lo := b / 16, b % 16;
      assert HexValue(h[0]) == hi;
      assert HexValue(h[1]) == lo;
      assert (hi * 16 + lo) % 256 == b;
      assert h[2..] == HexUpper(bytes[1..]);
      FromHexUpper(bytes[1..]);
    }
  }

  lemma HexUpperInjective(a: seq<Byte>, b: seq<Byte>)
    ensures HexUpper(a) == HexUpper(b) <==> a == b
  {
    if HexUpper(a) == HexUpper(b) {
      FromHexUpper(a);
      FromHexUpper(b);
    }
  }
}
