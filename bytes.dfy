/**
 * Byte strings and the text operations the exporter's configuration applies
 * to them: splitting on a separator, trimming whitespace, percent-decoding
 * (URL encoding) and the UTF-8 well-formedness rules of section 4 of RFC 3629.
 */
module Bytes {
  import opened Wrappers

  type byte = b: int | 0 <= b < 256
  type Bytes = seq<byte>

  const Comma: byte := 0x2C
  const Equals: byte := 0x3D
  const Percent: byte := 0x25
  const Space: byte := 0x20
  const Slash: byte := 0x2F
  const Colon: byte := 0x3A
  const Semicolon: byte := 0x3B
  const OpenParen: byte := 0x28
  const CloseParen: byte := 0x29

  // ---------------------------------------------------------------- UTF-8

  predicate IsContinuation(b: byte) {
    0x80 <= b <= 0xBF
  }

  /** How many bytes the sequence led by `b` has; 0 for a byte that cannot lead one. */
  function Width(b: byte): nat {
    if b < 0x80 then 1
    else if 0xC2 <= b <= 0xDF then 2
    else if 0xE0 <= b <= 0xEF then 3
    else if 0xF0 <= b <= 0xF4 then 4
    else 0
  }

  /** The range the second byte must fall in, which excludes overlong forms, surrogates and values past U+10FFFF. */
  function SecondLow(lead: byte): byte {
    if lead == 0xE0 then 0xA0 else if lead == 0xF0 then 0x90 else 0x80
  }

  function SecondHigh(lead: byte): byte {
    if lead == 0xED then 0x9F else if lead == 0xF4 then 0x8F else 0xBF
  }

  /** `s` starts with one well-formed UTF-8 sequence (the table in section 4 of RFC 3629). */
  predicate StartsWithSequence(s: Bytes) {
    && s != []
    && var w := Width(s[0]);
    && w > 0
    && |s| >= w
    && (w >= 2 ==> SecondLow(s[0]) <= s[1] <= SecondHigh(s[0]))
    && (w >= 3 ==> IsContinuation(s[2]))
    && (w >= 4 ==> IsContinuation(s[3]))
  }

  /** Well-formed UTF-8: a run of well-formed sequences. */
  predicate ValidUtf8(s: Bytes)
    decreases |s|
  {
    s == [] || (StartsWithSequence(s) && ValidUtf8(s[Width(s[0])..]))
  }

  /** The UTF-8 encoding of one Unicode scalar value. */
  function EncodeChar(c: char): (r: Bytes)
    ensures 1 <= |r| <= 4
    ensures ValidUtf8(r)
  {
    var n := c as int;
    if n < 0x80 then
      var r := [n];
      assert r[1..] == [];
      r
    else if n < 0x800 then
      var r := [0xC0 + n / 64, 0x80 + n % 64];
      assert r[2..] == [];
      r
    else if n < 0x10000 then
      var r := [0xE0 + n / 4096, 0x80 + (n / 64) % 64, 0x80 + n % 64];
      assert r[3..] == [];
      r
    else
      var r := [0xF0 + n / 262144, 0x80 + (n / 4096) % 64, 0x80 + (n / 64) % 64, 0x80 + n % 64];
      assert r[4..] == [];
      r
  }

  /** The UTF-8 bytes of a string, as Ruby stores a String literal. */
  function Utf8(s: string): Bytes {
    if s == [] then [] else EncodeChar(s[0]) + Utf8(s[1..])
  }

  predicate IsAscii(s: string) {
    forall i :: 0 <= i < |s| ==> s[i] < 128 as char
  }

  /** An ASCII string's bytes: one byte per character. */
  function Ascii(s: string): (r: Bytes)
    requires IsAscii(s)
    ensures |r| == |s|
    ensures forall i :: 0 <= i < |s| ==> r[i] == s[i] as int
  {
    seq(|s|, i requires 0 <= i < |s| => s[i] as int)
  }

  /** For ASCII text the one-byte-per-character form is its UTF-8 encoding. */
  lemma {:induction false} AsciiIsUtf8(s: string)
    requires IsAscii(s)
    ensures Ascii(s) == Utf8(s)
  {
    if s != [] {
      AsciiIsUtf8(s[1..]);
      assert Ascii(s) == [s[0] as int] + Ascii(s[1..]);
    }
  }

  /** A valid prefix sequence followed by a valid rest is valid. */
  lemma {:induction false} ValidUtf8Append(a: Bytes, b: Bytes)
    requires ValidUtf8(a) && ValidUtf8(b)
    ensures ValidUtf8(a + b)
    decreases |a|
  {
    if a == [] {
      assert a + b == b;
    } else {
      var w := Width(a[0]);
      ValidUtf8Append(a[w..], b);
      forall k | 0 <= k < w ensures (a + b)[k] == a[k] { }
      assert StartsWithSequence(a + b);
      assert (a + b)[w..] == a[w..] + b;
    }
  }

  /** Every string encodes to well-formed UTF-8. */
  lemma {:induction false} Utf8IsValid(s: string)
    ensures ValidUtf8(Utf8(s))
  {
    if s != [] {
      Utf8IsValid(s[1..]);
      ValidUtf8Append(EncodeChar(s[0]), Utf8(s[1..]));
    }
  }

  // ---------------------------------------------------------------- splitting

  /** The position of the first `b` in `s`. */
  function IndexOf(s: Bytes, b: byte): (i: nat)
    requires b in s
    ensures i < |s| && s[i] == b && b !in s[..i]
  {
    if s[0] == b then 0 else 1 + IndexOf(s[1..], b)
  }

  /** `s.split(sep, 2)`: the text before the first separator and everything after it. */
  function SplitFirst(s: Bytes, sep: byte): (r: Option<(Bytes, Bytes)>)
    ensures r.None? <==> sep !in s
    ensures r.Some? ==> r.value.0 + [sep] + r.value.1 == s && sep !in r.value.0
  {
    if sep !in s then None
    else
      var i := IndexOf(s, sep);
      assert s == s[..i] + [sep] + s[i + 1..];
      Some((s[..i], s[i + 1..]))
  }

  /** Splitting on the first separator finds it right after a prefix that has none. */
  lemma SplitFirstAfter(a: Bytes, sep: byte, b: Bytes)
    requires sep !in a
    ensures SplitFirst(a + [sep] + b, sep) == Some((a, b))
  {
    var s := a + [sep] + b;
    assert s[|a|] == sep;
    var i := IndexOf(s, sep);
    forall j | 0 <= j < |a| ensures s[j] != sep {
      assert s[j] == a[j];
    }
    assert i == |a|;
    assert s[..i] == a && s[i + 1..] == b;
  }

  /** The pieces between separators, as `s.split(sep, -1)`: there is always at least one. */
  function Split(s: Bytes, sep: byte): (parts: seq<Bytes>)
    ensures |parts| >= 1
    ensures forall i :: 0 <= i < |parts| ==> sep !in parts[i]
    ensures Join(parts, sep) == s
    decreases |s|
  {
    match SplitFirst(s, sep)
    case None => [s]
    case Some((a, b)) =>
      var rest := Split(b, sep);
      assert ([a] + rest)[1..] == rest;
      [a] + rest
  }

  /** The pieces glued back together with the separator between them. */
  function Join(parts: seq<Bytes>, sep: byte): Bytes
    requires |parts| >= 1
  {
    if |parts| == 1 then parts[0] else parts[0] + [sep] + Join(parts[1..], sep)
  }

  /** Splitting undoes joining when no piece holds the separator. */
  lemma {:induction false} SplitJoin(parts: seq<Bytes>, sep: byte)
    requires |parts| >= 1
    requires forall i :: 0 <= i < |parts| ==> sep !in parts[i]
    ensures Split(Join(parts, sep), sep) == parts
  {
    if |parts| > 1 {
      SplitJoin(parts[1..], sep);
      SplitFirstAfter(parts[0], sep, Join(parts[1..], sep));
    }
  }

  // ---------------------------------------------------------------- trimming

  /** The characters String#strip removes: space and the ASCII controls \t \n \v \f \r. */
  predicate IsSpace(b: byte) {
    b == Space || 0x09 <= b <= 0x0D
  }

  function TrimLeft(s: Bytes): (r: Bytes)
    ensures r == [] || !IsSpace(r[0])
    ensures |r| <= |s| && r == s[|s| - |r|..]
    ensures forall i :: 0 <= i < |s| - |r| ==> IsSpace(s[i])
  {
    if s != [] && IsSpace(s[0]) then TrimLeft(s[1..]) else s
  }

  function TrimRight(s: Bytes): (r: Bytes)
    ensures r == [] || !IsSpace(r[|r| - 1])
    ensures |r| <= |s| && r == s[..|r|]
    ensures forall i :: |r| <= i < |s| ==> IsSpace(s[i])
  {
    if s != [] && IsSpace(s[|s| - 1]) then TrimRight(s[..|s| - 1]) else s
  }

  /** String#strip: leading and trailing whitespace removed, nothing else. */
  function Trim(s: Bytes): (r: Bytes)
    ensures r == [] || (!IsSpace(r[0]) && !IsSpace(r[|r| - 1]))
    ensures r == [] <==> forall i :: 0 <= i < |s| ==> IsSpace(s[i])
  {
    var l := TrimLeft(s);
    var r := TrimRight(l);
    assert r != [] ==> r[0] == l[0];
    r
  }

  lemma TrimUnchanged(s: Bytes)
    requires s != [] && !IsSpace(s[0]) && !IsSpace(s[|s| - 1])
    ensures Trim(s) == s
  {
  }

  predicate AllSpaces(s: Bytes) {
    forall i :: 0 <= i < |s| ==> IsSpace(s[i])
  }

  lemma {:induction false} TrimLeftPadding(pre: Bytes, s: Bytes)
    requires AllSpaces(pre) && s != [] && !IsSpace(s[0])
    ensures TrimLeft(pre + s) == s
    decreases |pre|
  {
    if pre == [] {
      assert pre + s == s;
    } else {
      var t := pre + s;
      assert t[0] == pre[0] && IsSpace(t[0]);
      assert t[1..] == pre[1..] + s;
      assert TrimLeft(t) == TrimLeft(t[1..]);
      TrimLeftPadding(pre[1..], s);
    }
  }

  lemma {:induction false} TrimRightPadding(s: Bytes, post: Bytes)
    requires AllSpaces(post) && s != [] && !IsSpace(s[|s| - 1])
    ensures TrimRight(s + post) == s
    decreases |post|
  {
    if post == [] {
      assert s + post == s;
    } else {
      var t := s + post;
      assert t[|t| - 1] == post[|post| - 1] && IsSpace(t[|t| - 1]);
      assert t[..|t| - 1] == s + post[..|post| - 1];
      assert TrimRight(t) == TrimRight(t[..|t| - 1]);
      TrimRightPadding(s, post[..|post| - 1]);
    }
  }

  /** Trimming removes exactly the whitespace padding around text that does not itself start or end with whitespace. */
  lemma TrimPadded(pre: Bytes, s: Bytes, post: Bytes)
    requires AllSpaces(pre) && AllSpaces(post)
    requires s != [] && !IsSpace(s[0]) && !IsSpace(s[|s| - 1])
    ensures Trim(pre + s + post) == s
  {
    assert pre + s + post == pre + (s + post);
    TrimLeftPadding(pre, s + post);
    TrimRightPadding(s, post);
  }

  // ---------------------------------------------------------------- percent coding

  function HexDigit(b: byte): Option<nat> {
    if 0x30 <= b <= 0x39 then Some(b - 0x30)
    else if 0x41 <= b <= 0x46 then Some(b - 0x41 + 10)
    else if 0x61 <= b <= 0x66 then Some(b - 0x61 + 10)
    else None
  }

  function HexChar(n: nat): (b: byte)
    requires n < 16
    ensures HexDigit(b) == Some(n)
  {
    if n < 10 then 0x30 + n else 0x41 + n - 10
  }

  /**
   * URL decoding: every `%` followed by two hex digits stands for the byte
   * they spell; any other byte, a stray `%` included, stands for itself.
   */
  function PercentDecode(s: Bytes): (r: Bytes)
    ensures |r| <= |s|
    ensures r == [] <==> s == []
    ensures Percent !in s ==> r == s
  {
    if s == [] then []
    else if s[0] == Percent && |s| >= 3 && HexDigit(s[1]).Some? && HexDigit(s[2]).Some? then
      [16 * HexDigit(s[1]).value + HexDigit(s[2]).value] + PercentDecode(s[3..])
    else
      [s[0]] + PercentDecode(s[1..])
  }

  /** URL encoding of every byte as `%` and two upper-case hex digits. */
  function PercentEncode(s: Bytes): (r: Bytes)
    ensures |r| == 3 * |s|
    ensures forall i :: 0 <= i < |r| ==> !IsSpace(r[i]) && r[i] != Comma && r[i] != Equals
    ensures s != [] ==> r[0] == Percent && HexDigit(r[|r| - 1]).Some?
  {
    if s == [] then []
    else [Percent, HexChar(s[0] / 16), HexChar(s[0] % 16)] + PercentEncode(s[1..])
  }

  /** A `%` and two hex digits decode to the byte they spell, and decoding goes on after them. */
  lemma DecodeEscape(h1: byte, h2: byte, rest: Bytes)
    requires HexDigit(h1).Some? && HexDigit(h2).Some?
    ensures PercentDecode([Percent, h1, h2] + rest) == [16 * HexDigit(h1).value + HexDigit(h2).value] + PercentDecode(rest)
  {
    assert ([Percent, h1, h2] + rest)[3..] == rest;
  }

  /** Decoding undoes encoding. */
  lemma {:induction false} DecodeEncode(s: Bytes)
    ensures PercentDecode(PercentEncode(s)) == s
  {
    if s != [] {
      var hi, lo := HexChar(s[0] / 16), HexChar(s[0] % 16);
      var rest := PercentEncode(s[1..]);
      assert PercentEncode(s) == [Percent, hi, lo] + rest;
      DecodeEscape(hi, lo, rest);
      DecodeEncode(s[1..]);
    }
  }

  // ---------------------------------------------------------------- substrings

  /** `part` occurs somewhere in `s`. */
  predicate Contains(s: Bytes, part: Bytes)
    decreases |s|
  {
    (|part| <= |s| && s[..|part|] == part) || (s != [] && Contains(s[1..], part))
  }

  /** The pieces one after another. */
  function Concat(pieces: seq<Bytes>): Bytes {
    if pieces == [] then [] else pieces[0] + Concat(pieces[1..])
  }

  lemma {:induction false} ContainsPrefix(part: Bytes, rest: Bytes)
    ensures Contains(part + rest, part)
  {
    assert (part + rest)[..|part|] == part;
  }

  lemma {:induction false} ContainsAfter(front: Bytes, s: Bytes, part: Bytes)
    requires Contains(s, part)
    ensures Contains(front + s, part)
    decreases |front|
  {
    if front == [] {
      assert front + s == s;
    } else {
      ContainsAfter(front[1..], s, part);
      assert (front + s)[1..] == front[1..] + s;
    }
  }

  /** Each piece occurs in the concatenation of all of them. */
  lemma {:induction false} ConcatContainsPiece(pieces: seq<Bytes>, i: nat)
    requires i < |pieces|
    ensures Contains(Concat(pieces), pieces[i])
  {
    if i == 0 {
      ContainsPrefix(pieces[0], Concat(pieces[1..]));
    } else {
      ConcatContainsPiece(pieces[1..], i - 1);
      ContainsAfter(pieces[0], Concat(pieces[1..]), pieces[i]);
    }
  }

  predicate EndsWith(s: Bytes, suffix: Bytes) {
    |suffix| <= |s| && s[|s| - |suffix|..] == suffix
  }
}
