/** Percent-encoding of path parameters and query values, and its inverse. */
module Encoding {
  import opened Text
  import opened Wrappers

  /** A byte, written as the character of that number. */
  type Byte = c: char | c as int < 256 witness 'a'

  type Bytes = seq<Byte>

  /** Section 2.3 of RFC 3986: the unreserved characters. */
  predicate Unreserved(c: char) {
    'a' <= c <= 'z' || 'A' <= c <= 'Z' || '0' <= c <= '9' || c == '-' || c == '.' || c == '_' || c == '~'
  }

  /** What is passed through; a value that is a path keeps its slashes. */
  predicate Keeps(c: char, pathLike: bool) {
    Unreserved(c) || (pathLike && c == '/')
  }

  function HexDigit(n: nat): (c: Byte)
    requires n < 16
  {
    "0123456789ABCDEF"[n]
  }

  function Escaped(c: Byte, pathLike: bool): (r: Bytes)
  {
    if Keeps(c, pathLike) then [c] else ['%', HexDigit(c as int / 16), HexDigit(c as int % 16)]
  }

  function Encoded(s: Bytes, pathLike: bool): Bytes {
    if s == "" then "" else Escaped(s[0], pathLike) + Encoded(s[1..], pathLike)
  }

  predicate AllKept(s: string, pathLike: bool) {
    forall c | c in s :: Keeps(c, pathLike)
  }

  lemma {:induction false} KeptIsUnchanged(s: Bytes, pathLike: bool)
    requires AllKept(s, pathLike)
    ensures Encoded(s, pathLike) == s
  {
    if s != "" {
      KeptIsUnchanged(s[1..], pathLike);
      assert s == [s[0]] + s[1..];
    }
  }

  lemma {:induction false} EncodedAppend(a: Bytes, b: Bytes, pathLike: bool)
    ensures Encoded(a + b, pathLike) == Encoded(a, pathLike) + Encoded(b, pathLike)
  {
    if a == "" {
      assert a + b == b;
    } else {
      assert (a + b)[1..] == a[1..] + b;
      EncodedAppend(a[1..], b, pathLike);
    }
  }

  lemma EncodedOne(c: Byte, pathLike: bool)
    ensures Encoded([c], pathLike) == Escaped(c, pathLike)
  {
    assert [c][1..] == "";
  }

  /** `encode`: the text itself when nothing needs escaping, else byte by byte. */
  method Encode(s: Bytes, pathLike: bool) returns (out: Bytes)
    ensures out == Encoded(s, pathLike)
  {
    hide Escaped, Encoded;
    if AllKept(s, pathLike) {
      KeptIsUnchanged(s, pathLike);
      return s;
    }
    out := "";
    EncodedNothing(pathLike);
    for i := 0 to |s|
      invariant out == Encoded(s[..i], pathLike)
    {
      EncodedAppend(s[..i], [s[i]], pathLike);
      EncodedOne(s[i], pathLike);
      assert s[..i + 1] == s[..i] + [s[i]];
      out := out + Escaped(s[i], pathLike);
    }
    assert s[..|s|] == s;
  }

  lemma EncodedNothing(pathLike: bool)
    ensures Encoded("", pathLike) == ""
  {
  }

  /** An encoded value holds no delimiter but the slashes of a path; its dots it keeps. */
  lemma {:induction false} EncodedIsInert(s: Bytes, pathLike: bool)
    ensures forall c | c in Encoded(s, pathLike) :: Keeps(c, pathLike) || c == '%'
  {
    if s != "" {
      EncodedIsInert(s[1..], pathLike);
    }
  }

  // --------------------------------------------------------------------------- decoding

  function Unhex(c: char): (n: Option<nat>)
  {
    if '0' <= c <= '9' then Some(c as int - '0' as int)
    else if 'a' <= c <= 'f' then Some(c as int - 'a' as int + 10)
    else if 'A' <= c <= 'F' then Some(c as int - 'A' as int + 10)
    else None
  }

  predicate BeginsEscape(s: string) {
    |s| > 2 && s[0] == '%' && Unhex(s[1]).Some? && Unhex(s[2]).Some?
  }

  /** The byte `s` begins with, and how much of `s` it takes. */
  function FirstByte(s: Bytes): (r: (Byte, nat))
    requires s != ""
    ensures 1 <= r.1 <= |s|
  {
    if s[0] == '+' then (' ', 1)
    else if BeginsEscape(s) then ((Unhex(s[1]).value * 16 + Unhex(s[2]).value) as char, 3)
    else (s[0], 1)
  }

  function Decoded(s: Bytes): Bytes
    decreases |s|
  {
    if s == "" then "" else [FirstByte(s).0] + Decoded(s[FirstByte(s).1..])
  }

  predicate Between(s: Bytes, i: nat, low: int, high: int) {
    i < |s| && low <= s[i] as int <= high
  }

  /** How many bytes the first character takes, by the table in section 4 of RFC 3629; 0 if they are none. */
  function FirstCharacter(s: Bytes): (n: nat)
    ensures n <= 4 && n <= |s|
  {
    if Between(s, 0, 0x00, 0x7F) then 1
    else if Between(s, 0, 0xC2, 0xDF) && Between(s, 1, 0x80, 0xBF) then 2
    else if Between(s, 0, 0xE0, 0xEF) && Between(s, 2, 0x80, 0xBF)
            && Between(s, 1, if s[0] as int == 0xE0 then 0xA0 else 0x80, if s[0] as int == 0xED then 0x9F else 0xBF)
    then 3
    else if Between(s, 0, 0xF0, 0xF4) && Between(s, 2, 0x80, 0xBF) && Between(s, 3, 0x80, 0xBF)
            && Between(s, 1, if s[0] as int == 0xF0 then 0x90 else 0x80, if s[0] as int == 0xF4 then 0x8F else 0xBF)
    then 4
    else 0
  }

  /** The bytes are those of a text. */
  predicate IsText(s: Bytes)
    decreases |s|
  {
    s == [] || (FirstCharacter(s) > 0 && IsText(s[FirstCharacter(s)..]))
  }

  lemma {:induction false} NothingToDecode(s: Bytes)
    requires '%' !in s && '+' !in s
    ensures Decoded(s) == s
  {
    if s != "" {
      NothingToDecode(s[1..]);
      assert s[0] in s && s == [s[0]] + s[1..];
    }
  }

  /** What a query text stands for, if what is decoded is a text. */
  function QueryDecoded(s: Bytes): Option<Bytes> {
    if IsText(Decoded(s)) then Some(Decoded(s)) else None
  }

  /** `decode_query`. */
  method DecodeQuery(s: Bytes) returns (out: Option<Bytes>)
    requires IsText(s)
    ensures out == QueryDecoded(s)
  {
    hide FirstByte, IsText;
    if '%' !in s && '+' !in s {
      NothingToDecode(s);
      return Some(s);
    }
    var bytes: Bytes := "";
    var i := 0;
    assert s[0..] == s;
    while i < |s|
      invariant 0 <= i <= |s| && Decoded(s) == bytes + Decoded(s[i..])
      decreases |s| - i
    {
      var (c, n) := FirstByte(s[i..]);
      assert s[i..][n..] == s[i + n..];
      bytes := bytes + [c];
      i := i + n;
    }
    assert s[i..] == "" && bytes + "" == bytes;
    return if IsText(bytes) then Some(bytes) else None;
  }

  lemma EscapeReadsBack(c: Byte, rest: Bytes, pathLike: bool)
    ensures FirstByte(Escaped(c, pathLike) + rest) == (c, |Escaped(c, pathLike)|)
  {
    if !Keeps(c, pathLike) {
      var hi, lo := c as int / 16, c as int % 16;
      HexReadsBack(hi);
      HexReadsBack(lo);
    }
  }

  lemma HexReadsBack(n: nat)
    requires n < 16
    ensures Unhex(HexDigit(n)) == Some(n)
  {
  }

  /** Decoding undoes encoding, so no two values are encoded alike. */
  lemma {:induction false} DecodeUndoesEncode(s: Bytes, pathLike: bool)
    ensures Decoded(Encoded(s, pathLike)) == s
  {
    hide FirstByte, Escaped;
    if s != "" {
      var first, rest := Escaped(s[0], pathLike), Encoded(s[1..], pathLike);
      DecodeUndoesEncode(s[1..], pathLike);
      EscapeReadsBack(s[0], rest, pathLike);
      assert (first + rest)[|first|..] == rest;
      assert s == [s[0]] + s[1..];
    }
  }

  predicate AllAscii(s: Bytes) {
    forall c | c in s :: c as int < 128
  }

  lemma {:induction false} AsciiIsText(s: Bytes)
    requires AllAscii(s)
    ensures IsText(s)
  {
    if s != "" {
      assert s[0] in s && FirstCharacter(s) == 1;
      assert forall c | c in s[1..] :: c in s;
      AsciiIsText(s[1..]);
    }
  }

  /** What is encoded may be decoded as a query: it is a text, and the value comes back exactly if that is one. */
  lemma QueryRoundTrip(v: Bytes, pathLike: bool)
    ensures IsText(Encoded(v, pathLike))
    ensures QueryDecoded(Encoded(v, pathLike)) == Some(v) <==> IsText(v)
    ensures QueryDecoded(Encoded(v, pathLike)) == None <==> !IsText(v)
  {
    DecodeUndoesEncode(v, pathLike);
    EncodedIsInert(v, pathLike);
    assert forall c: Byte | Keeps(c, pathLike) || c == '%' :: c as int < 128;
    AsciiIsText(Encoded(v, pathLike));
  }

  // ------------------------------------------------------------------------------ paths

  /** The stretches of a value between slashes: `SplitOn`, of bytes. */
  function SplitBytes(s: Bytes): (r: seq<Bytes>)
    ensures r != [] && r == SplitOn(s, '/')
  {
    if s == "" then [""]
    else
      var rest := SplitBytes(s[1..]);
      if s[0] == '/' then [""] + rest else [[s[0]] + rest[0]] + rest[1..]
  }

  function EncodedEach(words: seq<Bytes>): (r: seq<string>)
    ensures |r| == |words|
  {
    if words == [] then [] else [Encoded(words[0], false)] + EncodedEach(words[1..])
  }

  /** Encoding a path is encoding what lies between its slashes, each as a value of its own. */
  lemma {:induction false} EncodedPathSplits(v: Bytes)
    ensures SplitOn(Encoded(v, true), '/') == EncodedEach(SplitBytes(v))
  {
    if v == "" {
      assert [""][1..] == [] && Encoded("", false) == "";
    } else {
      var c, tail := v[0], Encoded(v[1..], true);
      EncodedPathSplits(v[1..]);
      EscapedFirst(c);
      hide SplitOn, Escaped;
      if c == '/' {
        assert Encoded(v, true) == ['/'] + tail;
        SplitCons('/', tail, '/');
        SplitSlash(v);
      } else {
        SplitAfter(Escaped(c, false), tail, '/');
        SplitOther(v);
      }
    }
  }

  lemma EscapedFirst(c: Byte)
    ensures c == '/' ==> Escaped(c, true) == [c]
    ensures c != '/' ==> Escaped(c, true) == Escaped(c, false) && '/' !in Escaped(c, false)
  {
  }

  lemma SplitSlash(v: Bytes)
    requires v != "" && v[0] == '/'
    ensures EncodedEach(SplitBytes(v)) == [""] + EncodedEach(SplitBytes(v[1..]))
  {
    hide SplitOn, Escaped;
    var rest := SplitBytes(v[1..]);
    assert SplitBytes(v) == [""] + rest && ([""] + rest)[1..] == rest;
  }

  lemma SplitOther(v: Bytes)
    requires v != "" && v[0] != '/'
    ensures var each := EncodedEach(SplitBytes(v[1..]));
            EncodedEach(SplitBytes(v)) == [Escaped(v[0], false) + each[0]] + each[1..]
  {
    hide SplitOn, Escaped;
    var rest := SplitBytes(v[1..]);
    var first: Bytes := [v[0]] + rest[0];
    assert SplitBytes(v) == [first] + rest[1..] && ([first] + rest[1..])[1..] == rest[1..];
    assert first[1..] == rest[0];
  }

  // ------------------------------------------------------------------ the codes, by their text

  /** Each byte is written on its own: kept, or as a percent sign and its two digits. */
  lemma EncodedMeans(c: Byte, rest: Bytes, pathLike: bool)
    ensures var kept := || 'a' <= c <= 'z' || 'A' <= c <= 'Z' || '0' <= c <= '9' || c in {'-', '.', '_', '~'}
                        || (pathLike && c == '/');
            Encoded([c] + rest, pathLike)
            == (if kept then [c] else ['%', "0123456789ABCDEF"[c as int / 16], "0123456789ABCDEF"[c as int % 16]])
               + Encoded(rest, pathLike)
    ensures Encoded([], pathLike) == []
  {
    assert ([c] + rest)[1..] == rest;
  }

  const LOWER_HEX: string := "0123456789abcdef"
  const UPPER_HEX: string := "0123456789ABCDEF"

  predicate IsHex(c: char) {
    c in LOWER_HEX || c in UPPER_HEX
  }

  /** A plus stands for a space; any other byte for itself, unless it is a percent sign with two digits behind it. */
  lemma CharacterMeans(c: Byte, rest: Bytes)
    requires c != '%' || |rest| < 2 || !IsHex(rest[0]) || !IsHex(rest[1])
    ensures Decoded([c] + rest) == [if c == '+' then ' ' else c] + Decoded(rest)
    ensures Decoded([]) == []
  {
    hide IsHex, BeginsEscape;
    var s := [c] + rest;
    if c == '%' {
      NoEscape(s);
    } else {
      OnlyPercentEscapes(s);
    }
    FirstOf(s, if c == '+' then ' ' else c, 1, rest);
  }

  lemma OnlyPercentEscapes(s: string)
    requires s != "" && s[0] != '%'
    ensures !BeginsEscape(s)
  {
  }

  lemma NoEscape(s: string)
    requires |s| <= 2 || !IsHex(s[1]) || !IsHex(s[2])
    ensures !BeginsEscape(s)
  {
    hide IsHex, Unhex;
    if |s| > 2 {
      UnhexExactly(s[1]);
      UnhexExactly(s[2]);
    }
  }

  /** The byte is sixteen times the first digit and the second, in capitals or not. */
  lemma EscapeMeans(hi: Byte, lo: Byte, i: nat, j: nat, rest: Bytes)
    requires i < 16 && j < 16 && (hi == UPPER_HEX[i] || hi == LOWER_HEX[i]) && (lo == UPPER_HEX[j] || lo == LOWER_HEX[j])
    ensures Decoded(['%', hi, lo] + rest) == [(16 * i + j) as char] + Decoded(rest)
  {
    HexDigits(i);
    HexDigits(j);
    hide Unhex, UPPER_HEX, LOWER_HEX;
    FirstOf(['%', hi, lo] + rest, (16 * i + j) as char, 3, rest);
  }

  lemma FirstOf(s: Bytes, c: Byte, n: nat, rest: Bytes)
    requires s != [] && n <= |s| && s[n..] == rest && FirstByte(s) == (c, n)
    ensures Decoded(s) == [c] + Decoded(rest)
  {
  }

  lemma HexDigits(i: nat)
    requires i < 16
    ensures Unhex(UPPER_HEX[i]) == Some(i) && Unhex(LOWER_HEX[i]) == Some(i)
    ensures (UPPER_HEX[i] as int) < 256 && (LOWER_HEX[i] as int) < 256
  {
  }

  lemma UnhexExactly(c: char)
    ensures Unhex(c).Some? ==> IsHex(c)
  {
    if '0' <= c <= '9' {
      assert UPPER_HEX[c as int - '0' as int] == c;
    } else if 'A' <= c <= 'F' {
      assert UPPER_HEX[c as int - 'A' as int + 10] == c;
    } else if 'a' <= c <= 'f' {
      assert LOWER_HEX[c as int - 'a' as int + 10] == c;
    }
  }

  // --------------------------------------------------------------------------- texts

  /** What a character can be numbered: anything but the surrogates. */
  predicate Scalar(n: nat) {
    n < 0xD800 || 0xE000 <= n < 0x11_0000
  }

  function ByteOf(n: nat): (c: Byte)
    requires n < 256
    ensures c as int == n
  {
    n as char
  }

  /** Section 3 of RFC 3629: the bytes of one character. */
  function Utf8(n: nat): Bytes
    requires n < 0x11_0000
  {
    if n < 0x80 then [ByteOf(n)]
    else if n < 0x800 then [ByteOf(0xC0 + n / 64), ByteOf(0x80 + n % 64)]
    else if n < 0x1_0000 then [ByteOf(0xE0 + n / 4096), ByteOf(0x80 + n / 64 % 64), ByteOf(0x80 + n % 64)]
    else [ByteOf(0xF0 + n / 0x4_0000), ByteOf(0x80 + n / 4096 % 64), ByteOf(0x80 + n / 64 % 64), ByteOf(0x80 + n % 64)]
  }

  predicate Scalars(ns: seq<nat>) {
    forall i | 0 <= i < |ns| :: Scalar(ns[i])
  }

  function Utf8All(ns: seq<nat>): Bytes
    requires Scalars(ns)
  {
    if ns == [] then [] else Utf8(ns[0]) + Utf8All(ns[1..])
  }

  lemma ScalarIsCharacter(n: nat, rest: Bytes)
    requires Scalar(n)
    ensures FirstCharacter(Utf8(n) + rest) == |Utf8(n)|
  {
    if n < 0x800 {
      ShortScalar(n, rest);
    } else if n < 0x1_0000 {
      ThreeByteScalar(n, rest);
    } else {
      FourByteScalar(n, rest);
    }
  }

  lemma ShortScalar(n: nat, rest: Bytes)
    requires n < 0x800
    ensures FirstCharacter(Utf8(n) + rest) == |Utf8(n)|
  {
    var s := Utf8(n) + rest;
    if n < 0x80 {
      assert s[0] as int == n;
    } else {
      assert s[0] as int == 0xC0 + n / 64 && s[1] as int == 0x80 + n % 64;
    }
  }

  lemma ThreeByteScalar(n: nat, rest: Bytes)
    requires 0x800 <= n < 0x1_0000 && Scalar(n)
    ensures FirstCharacter(Utf8(n) + rest) == |Utf8(n)|
  {
    var s := Utf8(n) + rest;
    var a, b, c := n / 4096, n / 64 % 64, n % 64;
    assert s[0] as int == 0xE0 + a && s[1] as int == 0x80 + b && s[2] as int == 0x80 + c;
    assert a < 16 && (a == 0 ==> b >= 32) && (a == 13 ==> b < 32);
    hide Utf8;
  }

  lemma FourByteScalar(n: nat, rest: Bytes)
    requires 0x1_0000 <= n < 0x11_0000
    ensures FirstCharacter(Utf8(n) + rest) == |Utf8(n)|
  {
    var s := Utf8(n) + rest;
    var a, b, c, d := n / 0x4_0000, n / 4096 % 64, n / 64 % 64, n % 64;
    assert s[0] as int == 0xF0 + a && s[1] as int == 0x80 + b && s[2] as int == 0x80 + c && s[3] as int == 0x80 + d;
    assert a <= 4 && (a == 0 ==> b >= 16) && (a == 4 ==> b < 16) && |Utf8(n)| == 4;
    hide Utf8;
  }

  lemma CharacterIsScalar(s: Bytes) returns (n: nat)
    requires FirstCharacter(s) > 0
    ensures Scalar(n) && Utf8(n) == s[..FirstCharacter(s)]
  {
    var k := FirstCharacter(s);
    var a := s[0] as int;
    if k == 1 {
      n := a;
    } else if k == 2 {
      n := (a - 0xC0) * 64 + (s[1] as int - 0x80);
      TwoBytes(s);
    } else if k == 3 {
      n := (a - 0xE0) * 4096 + (s[1] as int - 0x80) * 64 + (s[2] as int - 0x80);
      ThreeBytes(s);
    } else {
      n := (a - 0xF0) * 0x4_0000 + (s[1] as int - 0x80) * 4096 + (s[2] as int - 0x80) * 64 + (s[3] as int - 0x80);
      FourBytes(s);
    }
  }

  lemma TwoBytes(s: Bytes)
    requires FirstCharacter(s) == 2
    ensures var n := (s[0] as int - 0xC0) * 64 + (s[1] as int - 0x80);
            0 <= n && Scalar(n) && Utf8(n) == s[..2]
  {
  }

  lemma ThreeBytes(s: Bytes)
    requires FirstCharacter(s) == 3
    ensures var n := (s[0] as int - 0xE0) * 4096 + (s[1] as int - 0x80) * 64 + (s[2] as int - 0x80);
            0 <= n && Scalar(n) && Utf8(n) == s[..3]
  {
    var a, b, c := s[0] as int - 0xE0, s[1] as int - 0x80, s[2] as int - 0x80;
    assert 0 <= a < 16 && 0 <= b < 64 && 0 <= c < 64 && (a == 0 ==> b >= 32) && (a == 13 ==> b < 32);
    hide FirstCharacter;
    FourDigits(0, a, b, c);
    var n := a * 4096 + b * 64 + c;
    assert n / 4096 == a;
    assert 0x800 <= n < 0x1_0000 && Scalar(n);
  }

  lemma FourBytes(s: Bytes)
    requires FirstCharacter(s) == 4
    ensures var n := (s[0] as int - 0xF0) * 0x4_0000 + (s[1] as int - 0x80) * 4096 + (s[2] as int - 0x80) * 64
                     + (s[3] as int - 0x80);
            0 <= n && Scalar(n) && Utf8(n) == s[..4]
  {
    var a, b, c, d := s[0] as int - 0xF0, s[1] as int - 0x80, s[2] as int - 0x80, s[3] as int - 0x80;
    assert 0 <= a <= 4 && 0 <= b < 64 && 0 <= c < 64 && 0 <= d < 64 && (a == 0 ==> b >= 16) && (a == 4 ==> b < 16);
    hide FirstCharacter;
    FourDigits(a, b, c, d);
    var n := a * 0x4_0000 + b * 4096 + c * 64 + d;
    assert 0x1_0000 <= n < 0x11_0000;
  }

  lemma FourDigits(a: nat, b: nat, c: nat, d: nat)
    requires b < 64 && c < 64 && d < 64
    ensures var n := a * 0x4_0000 + b * 4096 + c * 64 + d;
            n / 0x4_0000 == a && n / 4096 % 64 == b && n / 64 % 64 == c && n % 64 == d
  {
    var n := a * 0x4_0000 + b * 4096 + c * 64 + d;
    assert n / 64 == a * 4096 + b * 64 + c;
    assert n / 4096 == a * 64 + b;
  }

  lemma Utf8AllCons(n: nat, more: seq<nat>)
    requires Scalar(n) && Scalars(more)
    ensures Scalars([n] + more) && Utf8All([n] + more) == Utf8(n) + Utf8All(more)
  {
    assert ([n] + more)[1..] == more;
    hide Utf8, Scalar;
  }

  lemma FirstAndRest(s: Bytes) returns (front: Bytes, rest: Bytes)
    requires IsText(s) && s != []
    ensures FirstCharacter(s) > 0 && front == s[..FirstCharacter(s)] && IsText(rest) && |rest| < |s| && s == front + rest
  {
    hide FirstCharacter;
    var k := FirstCharacter(s);
    front, rest := s[..k], s[k..];
  }

  lemma {:induction false} TextIsScalars(s: Bytes) returns (ns: seq<nat>)
    requires IsText(s)
    ensures Scalars(ns) && Utf8All(ns) == s
    decreases |s|
  {
    if s == [] {
      ns := [];
    } else {
      hide FirstCharacter, Utf8, Scalar, Scalars, Utf8All;
      var front, rest := FirstAndRest(s);
      var n := CharacterIsScalar(s);
      var more := TextIsScalars(rest);
      hide IsText;
      Utf8AllCons(n, more);
      ns := [n] + more;
      assert Utf8(n) == front && Utf8All(more) == rest;
    }
  }

  lemma {:induction false} ScalarsAreText(ns: seq<nat>)
    requires Scalars(ns)
    ensures IsText(Utf8All(ns))
  {
    if ns != [] {
      hide FirstCharacter;
      var first, rest := Utf8(ns[0]), Utf8All(ns[1..]);
      ScalarIsCharacter(ns[0], rest);
      ScalarsAreText(ns[1..]);
      assert (first + rest)[|first|..] == rest && |first| > 0;
    }
  }

  /** The bytes taken for a text are those some list of characters is written as. */
  lemma TextExactly(s: Bytes)
    ensures IsText(s) <==> exists ns :: Scalars(ns) && Utf8All(ns) == s
  {
    if IsText(s) {
      var ns := TextIsScalars(s);
    }
    if ns :| Scalars(ns) && Utf8All(ns) == s {
      ScalarsAreText(ns);
    }
  }
}
