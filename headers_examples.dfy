/**
 * The headers settings the exporter's constructor is known to accept or
 * reject, worked through the parser.
 */
module HeaderExamples {
  import opened Wrappers
  import opened Bytes
  import opened Environment
  import opened ConfigErrors
  import opened Headers

  lemma AsciiValid(s: string)
    requires IsAscii(s)
    ensures ValidUtf8(Ascii(s))
  {
    AsciiIsUtf8(s);
    Utf8IsValid(s);
  }

  lemma AsciiConcat(s: string, t: string)
    requires IsAscii(s) && IsAscii(t)
    ensures IsAscii(s + t) && Ascii(s + t) == Ascii(s) + Ascii(t)
  {
  }

  /** An entry whose key and value need neither trimming nor decoding. */
  lemma PlainEntry(k: string, v: string)
    requires IsAscii(k) && IsAscii(v) && k != [] && v != []
    requires !IsSpace(k[0] as int) && !IsSpace(k[|k| - 1] as int)
    requires !IsSpace(v[0] as int) && !IsSpace(v[|v| - 1] as int)
    requires '=' !in k && '%' !in k && '%' !in v && ',' !in k && ',' !in v
    ensures Comma !in Ascii(k) + [Equals] + Ascii(v)
    ensures ParseEntry(Ascii(k) + [Equals] + Ascii(v)) == Success((Ascii(k), Ascii(v)))
  {
    var key, value := Ascii(k), Ascii(v);
    assert Equals !in key && Percent !in key && Percent !in value && Comma !in key && Comma !in value by {
      forall i | 0 <= i < |key| ensures key[i] != Equals && key[i] != Percent && key[i] != Comma {
        assert k[i] in k;
      }
      forall i | 0 <= i < |value| ensures value[i] != Percent && value[i] != Comma {
        assert v[i] in v;
      }
    }
    TrimUnchanged(key);
    TrimUnchanged(value);
    AsciiValid(k);
    AsciiValid(v);
    EntrySplitsOnFirstEquals(key, value);
  }

  lemma JoinThree(x: Bytes, y: Bytes, z: Bytes)
    ensures Join([x, y, z], Comma) == x + [Comma] + y + [Comma] + z
  {
    var parts := [x, y, z];
    assert parts[1..][1..] == [z];
    assert Join(parts[1..], Comma) == y + [Comma] + z;
  }

  lemma SplitsIntoThree(text: Bytes, x: Bytes, y: Bytes, z: Bytes)
    requires Comma !in x && Comma !in y && Comma !in z
    requires text == x + [Comma] + y + [Comma] + z
    ensures Split(text, Comma) == [x, y, z]
  {
    JoinThree(x, y, z);
    SplitJoin([x, y, z], Comma);
  }

  lemma SplitsIntoTwo(text: Bytes, x: Bytes, y: Bytes)
    requires Comma !in x && Comma !in y
    requires text == x + [Comma] + y
    ensures Split(text, Comma) == [x, y]
  {
    var parts := [x, y];
    assert parts[1..] == [y];
    assert Join(parts, Comma) == x + [Comma] + y;
    SplitJoin(parts, Comma);
  }

  /** Two well-formed entries separated by a comma give the map of their two pairs. */
  lemma ParseTwo(x: Bytes, y: Bytes, a: Bytes, b: Bytes, c: Bytes, d: Bytes)
    requires Comma !in x && Comma !in y
    requires ParseEntry(x) == Success((a, b)) && ParseEntry(y) == Success((c, d))
    ensures ParseHeaders(x + [Comma] + y) == Success(map[a := b, c := d])
  {
    SplitsIntoTwo(x + [Comma] + y, x, y);
    LastTwoEntries(x, y, map[], a, b, c, d);
  }

  /** Three well-formed entries separated by commas give the map of their three pairs. */
  lemma ParseThree(x: Bytes, y: Bytes, z: Bytes, a: Bytes, b: Bytes, c: Bytes, d: Bytes, e: Bytes, f: Bytes)
    requires Comma !in x && Comma !in y && Comma !in z
    requires ParseEntry(x) == Success((a, b)) && ParseEntry(y) == Success((c, d)) && ParseEntry(z) == Success((e, f))
    ensures ParseHeaders(x + [Comma] + y + [Comma] + z) == Success(map[a := b, c := d, e := f])
  {
    var text := x + [Comma] + y + [Comma] + z;
    SplitsIntoThree(text, x, y, z);
    assert ParseHeaders(text) == ParseEntries([x, y, z], map[]);
    ThreeEntries(x, y, z, a, b, c, d, e, f);
  }

  lemma ThreeEntries(x: Bytes, y: Bytes, z: Bytes, a: Bytes, b: Bytes, c: Bytes, d: Bytes, e: Bytes, f: Bytes)
    requires ParseEntry(x) == Success((a, b)) && ParseEntry(y) == Success((c, d)) && ParseEntry(z) == Success((e, f))
    ensures ParseEntries([x, y, z], map[]) == Success(map[a := b, c := d, e := f])
  {
    var three := [x, y, z];
    assert three[1..] == [y, z];
    ParseStep(three, map[], a, b);
    LastTwoEntries(y, z, map[a := b], c, d, e, f);
  }

  lemma LastTwoEntries(y: Bytes, z: Bytes, acc: HeaderMap, c: Bytes, d: Bytes, e: Bytes, f: Bytes)
    requires ParseEntry(y) == Success((c, d)) && ParseEntry(z) == Success((e, f))
    ensures ParseEntries([y, z], acc) == Success(acc[c := d][e := f])
  {
    var two := [y, z];
    assert two[1..] == [z];
    ParseStep(two, acc, c, d);
    ParseStep([z], acc[c := d], e, f);
    assert [z][1..] == [];
  }

  /** A well-formed first entry is stored and parsing goes on with the rest. */
  lemma ParseStep(entries: seq<Bytes>, acc: HeaderMap, k: Bytes, v: Bytes)
    requires entries != [] && ParseEntry(entries[0]) == Success((k, v))
    ensures ParseEntries(entries, acc) == ParseEntries(entries[1..], acc[k := v])
  {
  }

  /** `a=b,c=d==,e=f` and its three entries. */
  const EqualsText: Bytes := Ascii("a=b,c=d==,e=f")
  const KeyA: Bytes := Ascii("a")
  const ValueB: Bytes := Ascii("b")
  const KeyC: Bytes := Ascii("c")
  const ValueD: Bytes := Ascii("d==")
  const KeyE: Bytes := Ascii("e")
  const ValueF: Bytes := Ascii("f")
  const EntryAB: Bytes := KeyA + [Equals] + ValueB
  const EntryCD: Bytes := KeyC + [Equals] + ValueD
  const EntryEF: Bytes := KeyE + [Equals] + ValueF

  lemma EqualsTextPieces()
    ensures EqualsText == EntryAB + [Comma] + EntryCD + [Comma] + EntryEF
  {
    var text := EntryAB + [Comma] + EntryCD + [Comma] + EntryEF;
    assert |text| == 13 == |EqualsText|;
    assert forall i :: 0 <= i < 13 ==> text[i] == EqualsText[i];
  }

  lemma EntryABParses()
    ensures Comma !in EntryAB && ParseEntry(EntryAB) == Success((KeyA, ValueB))
  {
    PlainEntry("a", "b");
  }

  lemma EntryCDParses()
    ensures Comma !in EntryCD && ParseEntry(EntryCD) == Success((KeyC, ValueD))
  {
    PlainEntry("c", "d==");
  }

  lemma EntryEFParses()
    ensures Comma !in EntryEF && ParseEntry(EntryEF) == Success((KeyE, ValueF))
  {
    PlainEntry("e", "f");
  }

  /** Everything after the first `=` is the value, further `=` included. */
  lemma EqualsSignsInValues()
    ensures ParseHeaders(EqualsText) == Success(map[KeyA := ValueB, KeyC := ValueD, KeyE := ValueF])
  {
    EqualsTextPieces();
    EntryABParses();
    EntryCDParses();
    EntryEFParses();
    ParseThree(EntryAB, EntryCD, EntryEF, KeyA, ValueB, KeyC, ValueD, KeyE, ValueF);
  }

  // ---------------------------------------------------------------- whitespace around keys and values

  /** A byte that is not whitespace occurs in padded text only where it occurs in the text itself. */
  lemma NotInPadding(b: byte, p1: Bytes, key: Bytes, p2: Bytes)
    requires AllSpaces(p1) && AllSpaces(p2) && !IsSpace(b) && b !in key
    ensures b !in p1 + key + p2
  {
    var raw := p1 + key + p2;
    forall i | 0 <= i < |raw| ensures raw[i] != b {
      if i < |p1| { assert raw[i] == p1[i]; }
      else if i < |p1| + |key| { assert raw[i] == key[i - |p1|]; }
      else { assert raw[i] == p2[i - |p1| - |key|]; }
    }
  }

  lemma NoCommaInPaddedEntry(p1: Bytes, key: Bytes, p2: Bytes, p3: Bytes, value: Bytes, p4: Bytes)
    requires AllSpaces(p1) && AllSpaces(p2) && AllSpaces(p3) && AllSpaces(p4)
    requires Comma !in key && Comma !in value
    ensures Comma !in p1 + key + p2 + [Equals] + p3 + value + p4
  {
    NotInPadding(Comma, p1, key, p2);
    NotInPadding(Comma, p3, value, p4);
    PaddedEntryShape(p1, key, p2, p3, value, p4);
    var raw, rest := p1 + key + p2, p3 + value + p4;
    var entry := raw + [Equals] + rest;
    forall i | 0 <= i < |entry| ensures entry[i] != Comma {
      if i < |raw| { assert entry[i] == raw[i]; }
      else if i > |raw| { assert entry[i] == rest[i - |raw| - 1]; }
    }
  }

  lemma PaddedEntryShape(p1: Bytes, key: Bytes, p2: Bytes, p3: Bytes, value: Bytes, p4: Bytes)
    ensures p1 + key + p2 + [Equals] + p3 + value + p4 == (p1 + key + p2) + [Equals] + (p3 + value + p4)
  {
  }

  /** Whitespace around a key or a value is dropped before decoding. */
  lemma PaddedEntry(p1: Bytes, key: Bytes, p2: Bytes, p3: Bytes, value: Bytes, p4: Bytes)
    requires AllSpaces(p1) && AllSpaces(p2) && AllSpaces(p3) && AllSpaces(p4)
    requires Equals !in key
    requires key != [] && !IsSpace(key[0]) && !IsSpace(key[|key| - 1])
    requires value != [] && !IsSpace(value[0]) && !IsSpace(value[|value| - 1])
    requires ValidUtf8(PercentDecode(key)) && ValidUtf8(PercentDecode(value))
    ensures ParseEntry(p1 + key + p2 + [Equals] + p3 + value + p4) == Success((PercentDecode(key), PercentDecode(value)))
  {
    var raw, rest := p1 + key + p2, p3 + value + p4;
    NotInPadding(Equals, p1, key, p2);
    PaddedEntryShape(p1, key, p2, p3, value, p4);
    SplitFirstAfter(raw, Equals, rest);
    TrimPadded(p1, key, p2);
    TrimPadded(p3, value, p4);
  }

  /** `a =  b  ,c=d , e=f` and its three padded entries. */
  const PaddedText: Bytes := Ascii("a =  b  ,c=d , e=f")
  const ValueDPlain: Bytes := Ascii("d")
  const PaddedAB: Bytes := [] + KeyA + [Space] + [Equals] + [Space, Space] + ValueB + [Space, Space]
  const PaddedCD: Bytes := [] + KeyC + [] + [Equals] + [] + ValueDPlain + [Space]
  const PaddedEF: Bytes := [Space] + KeyE + [] + [Equals] + [] + ValueF + []

  lemma PaddedTextPieces()
    ensures PaddedText == PaddedAB + [Comma] + PaddedCD + [Comma] + PaddedEF
  {
    var text := PaddedAB + [Comma] + PaddedCD + [Comma] + PaddedEF;
    assert |text| == 18 == |PaddedText|;
    assert forall i :: 0 <= i < 18 ==> text[i] == PaddedText[i];
  }

  lemma PaddedABParses()
    ensures Comma !in PaddedAB && ParseEntry(PaddedAB) == Success((KeyA, ValueB))
  {
    AsciiValid("a");
    AsciiValid("b");
    assert PercentDecode(KeyA) == KeyA && PercentDecode(ValueB) == ValueB;
    AsciiExcludes("a", Comma);
    AsciiExcludes("b", Comma);
    PaddedEntry([], KeyA, [Space], [Space, Space], ValueB, [Space, Space]);
    NoCommaInPaddedEntry([], KeyA, [Space], [Space, Space], ValueB, [Space, Space]);
  }

  lemma PaddedCDParses()
    ensures Comma !in PaddedCD && ParseEntry(PaddedCD) == Success((KeyC, ValueDPlain))
  {
    AsciiValid("c");
    AsciiValid("d");
    assert PercentDecode(KeyC) == KeyC && PercentDecode(ValueDPlain) == ValueDPlain;
    AsciiExcludes("c", Comma);
    AsciiExcludes("d", Comma);
    PaddedEntry([], KeyC, [], [], ValueDPlain, [Space]);
    NoCommaInPaddedEntry([], KeyC, [], [], ValueDPlain, [Space]);
  }

  lemma PaddedEFParses()
    ensures Comma !in PaddedEF && ParseEntry(PaddedEF) == Success((KeyE, ValueF))
  {
    AsciiValid("e");
    AsciiValid("f");
    assert PercentDecode(KeyE) == KeyE && PercentDecode(ValueF) == ValueF;
    AsciiExcludes("e", Comma);
    AsciiExcludes("f", Comma);
    PaddedEntry([Space], KeyE, [], [], ValueF, []);
    NoCommaInPaddedEntry([Space], KeyE, [], [], ValueF, []);
  }

  /** Whitespace around keys and values is trimmed. */
  lemma SpacesTrimmed()
    ensures ParseHeaders(PaddedText) == Success(map[KeyA := ValueB, KeyC := ValueDPlain, KeyE := ValueF])
  {
    PaddedTextPieces();
    PaddedABParses();
    PaddedCDParses();
    PaddedEFParses();
    ParseThree(PaddedAB, PaddedCD, PaddedEF, KeyA, ValueB, KeyC, ValueDPlain, KeyE, ValueF);
  }

  lemma AsciiExcludes(s: string, b: byte)
    requires IsAscii(s) && b < 128 && (b as char) !in s
    ensures b !in Ascii(s)
  {
    forall i | 0 <= i < |s| ensures Ascii(s)[i] != b {
      assert s[i] in s;
    }
  }

  /** A string without commas is a single entry. */
  lemma SingleEntry(text: Bytes)
    requires Comma !in text
    ensures Split(text, Comma) == [text]
  {
  }

  lemma NoCommaAround(key: Bytes, value: Bytes)
    requires Comma !in key && Comma !in value
    ensures Comma !in key + [Equals] + value
  {
    var text := key + [Equals] + value;
    forall i | 0 <= i < |text| ensures text[i] != Comma {
      if i < |key| { assert text[i] == key[i]; }
      else if i > |key| { assert text[i] == value[i - |key| - 1]; }
    }
  }

  /** A string without commas holds one entry, and parses to that entry alone. */
  lemma SingleEntryHeaders(text: Bytes, kv: (Bytes, Bytes))
    requires Comma !in text
    requires ParseEntry(text) == Success(kv)
    ensures ParseHeaders(text) == Success(map[kv.0 := kv.1])
  {
    SingleEntry(text);
    var entries := [text];
    assert entries[0] == text && entries[1..] == [];
    var m: HeaderMap := map[];
    assert ParseEntries(entries[1..], m[kv.0 := kv.1]) == Success(m[kv.0 := kv.1]);
    assert ParseEntries(entries, m) == ParseEntries(entries[1..], m[kv.0 := kv.1]);
  }

  lemma CleanEntry(key: Bytes, value: Bytes)
    requires Equals !in key
    requires key != [] && !IsSpace(key[0]) && !IsSpace(key[|key| - 1])
    requires value != [] && !IsSpace(value[0]) && !IsSpace(value[|value| - 1])
    requires ValidUtf8(PercentDecode(key)) && ValidUtf8(PercentDecode(value))
    ensures ParseEntry(key + [Equals] + value) == Success((PercentDecode(key), PercentDecode(value)))
  {
    TrimUnchanged(key);
    TrimUnchanged(value);
    EntrySplitsOnFirstEquals(key, value);
  }

  /** One well-formed entry and nothing else. */
  lemma ParseOne(key: Bytes, value: Bytes)
    requires Comma !in key && Comma !in value && Equals !in key
    requires key != [] && !IsSpace(key[0]) && !IsSpace(key[|key| - 1])
    requires value != [] && !IsSpace(value[0]) && !IsSpace(value[|value| - 1])
    requires ValidUtf8(PercentDecode(key)) && ValidUtf8(PercentDecode(value))
    ensures ParseHeaders(key + [Equals] + value) == Success(map[PercentDecode(key) := PercentDecode(value)])
  {
    NoCommaAround(key, value);
    CleanEntry(key, value);
    SingleEntryHeaders(key + [Equals] + value, (PercentDecode(key), PercentDecode(value)));
  }

  /** One entry whose value does not decode to UTF-8: the whole setting is invalid. */
  lemma BadValueEntry(key: Bytes, value: Bytes)
    requires Comma !in key && Comma !in value && Equals !in key
    requires key != [] && !IsSpace(key[0]) && !IsSpace(key[|key| - 1])
    requires value != [] && !IsSpace(value[0]) && !IsSpace(value[|value| - 1])
    requires !ValidUtf8(PercentDecode(value))
    ensures ParseHeaders(key + [Equals] + value) == Failure(InvalidHeaders)
  {
    NoCommaAround(key, value);
    SingleEntry(key + [Equals] + value);
    SplitFirstAfter(key, Equals, value);
    TrimUnchanged(key);
    TrimUnchanged(value);
  }

  // ---------------------------------------------------------------- rejected strings

  const NotAHeaderText: Bytes := Ascii("this is not a header")

  /** An entry without `=` is rejected. */
  lemma NotAHeader()
    ensures ParseHeaders(NotAHeaderText) == Failure(InvalidHeaders)
  {
    AsciiExcludes("this is not a header", Comma);
    AsciiExcludes("this is not a header", Equals);
    SingleEntry(NotAHeaderText);
  }

  /** A lone comma is two empty entries, and an empty entry has no `=`. */
  lemma LoneComma()
    ensures ParseHeaders([Comma]) == Failure(InvalidHeaders)
  {
    assert [Comma] == [] + [Comma] + [];
    SplitFirstAfter([], Comma, []);
    assert Split([Comma], Comma) == [[], []];
  }

  const MissingValueText: Bytes := Ascii("a = ")

  /** A value that is only whitespace is empty after trimming. */
  lemma MissingValue()
    ensures ParseHeaders(MissingValueText) == Failure(InvalidHeaders)
  {
    var key := Ascii("a ");
    AsciiExcludes("a = ", Comma);
    SingleEntry(MissingValueText);
    assert MissingValueText == key + [Equals] + [Space];
    AsciiExcludes("a ", Equals);
    SplitFirstAfter(key, Equals, [Space]);
    assert Trim([Space]) == [];
  }

  /** `c=hi%F3` and its value. */
  const BadEscapeText: Bytes := Ascii("c=hi%F3")
  const HiF3: Bytes := Ascii("hi%F3")

  lemma BadEscapeTextPieces()
    ensures BadEscapeText == KeyC + [Equals] + HiF3
  {
    var parts := KeyC + [Equals] + HiF3;
    assert |BadEscapeText| == 7 == |parts|;
    assert forall i :: 0 <= i < 7 ==> BadEscapeText[i] == parts[i];
  }

  /** `%F3` decodes to a byte that starts a four-byte sequence, and nothing follows it. */
  lemma BadEscape()
    ensures ParseHeaders(BadEscapeText) == Failure(InvalidHeaders)
  {
    BadEscapeTextPieces();
    AsciiExcludes("c", Comma);
    AsciiExcludes("c", Equals);
    AsciiExcludes("hi%F3", Comma);
    DecodeHiF3();
    BadValueEntry(KeyC, HiF3);
  }

  lemma DecodeHiF3()
    ensures !ValidUtf8(PercentDecode(HiF3))
  {
    var value := HiF3;
    var tail: Bytes := [Percent, 0x46, 0x33];
    assert value == [0x68] + ([0x69] + tail);
    assert PercentDecode(tail) == [0xF3] + PercentDecode([]);
    assert PercentDecode([0x69] + tail) == [0x69] + PercentDecode(tail) by {
      assert ([0x69] + tail)[1..] == tail;
    }
    assert PercentDecode(value) == [0x68] + PercentDecode([0x69] + tail) by {
      assert value[1..] == [0x69] + tail;
    }
    var d := [0x68, 0x69, 0xF3];
    assert PercentDecode(value) == d;
    assert d[1..][1..] == [0xF3];
    assert !ValidUtf8([0xF3]);
  }

  // ---------------------------------------------------------------- escaped values

  /** `%C3%BC`, the escaped letter u with diaeresis, and its two bytes. */
  const UmlautEscape: Bytes := [Percent, 0x43, 0x33, Percent, 0x42, 0x43]
  const Umlaut: Bytes := [0xC3, 0xBC]

  /** The escaped letter followed by text without escapes decodes to the letter's two bytes, then the text. */
  lemma DecodeUmlautPrefix(rest: Bytes)
    requires Percent !in rest
    ensures PercentDecode(UmlautEscape + rest) == Umlaut + rest
  {
    var second: Bytes := [Percent, 0x42, 0x43] + rest;
    assert UmlautEscape + rest == [Percent, 0x43, 0x33] + second;
    assert HexDigit(0x43) == Some(12) && HexDigit(0x33) == Some(3) && HexDigit(0x42) == Some(11);
    DecodeEscape(0x43, 0x33, second);
    DecodeEscape(0x42, 0x43, rest);
    assert PercentDecode(second) == [0xBC] + rest;
    assert PercentDecode(UmlautEscape + rest) == [0xC3] + ([0xBC] + rest);
    PairThenRest(0xC3, 0xBC, rest);
  }

  lemma PairThenRest(a: byte, b: byte, rest: Bytes)
    ensures [a, b] + rest == [a] + ([b] + rest)
  {
    var left, right := [a, b] + rest, [a] + ([b] + rest);
    assert |left| == |right|;
    forall i | 0 <= i < |left| ensures left[i] == right[i] {
      if i >= 2 { assert left[i] == rest[i - 2] == right[i]; }
    }
  }

  /** One entry whose value is the escaped letter followed by plain text. */
  lemma UmlautEntry(key: Bytes, rest: Bytes)
    requires Comma !in key && Equals !in key && Percent !in key && ValidUtf8(key)
    requires key != [] && !IsSpace(key[0]) && !IsSpace(key[|key| - 1])
    requires Comma !in rest && Percent !in rest && ValidUtf8(rest)
    requires rest != [] && !IsSpace(rest[|rest| - 1])
    ensures ParseHeaders(key + [Equals] + (UmlautEscape + rest)) == Success(map[key := Umlaut + rest])
  {
    var value := UmlautEscape + rest;
    assert Comma !in value by {
      forall i | 0 <= i < |value| ensures value[i] != Comma {
        if i >= 6 { assert value[i] == rest[i - 6]; }
      }
    }
    assert value[|value| - 1] == rest[|rest| - 1];
    DecodeUmlautPrefix(rest);
    assert ValidUtf8(Umlaut + rest) by {
      assert ValidUtf8(Umlaut) by {
        assert Umlaut[2..] == [];
      }
      ValidUtf8Append(Umlaut, rest);
    }
    ParseOne(key, value);
  }

  /** `token=%C3%BCber`. */
  const TokenKey: Bytes := Ascii("token")
  const Ber: Bytes := Ascii("ber")
  const TokenText: Bytes := Ascii("token=%C3%BCber")

  lemma TokenUberText()
    ensures TokenText == TokenKey + [Equals] + (UmlautEscape + Ber)
  {
    var parts := TokenKey + [Equals] + (UmlautEscape + Ber);
    assert |TokenText| == 15 == |parts|;
    assert forall i :: 0 <= i < 15 ==> TokenText[i] == parts[i];
  }

  /** The word of the examples, as the two bytes of its first letter followed by "ber". */
  const Uber: Bytes := Umlaut + Ber

  /** `Uber` is how Ruby stores the String literal with the letter u with diaeresis. */
  lemma UberIsUtf8()
    ensures Utf8("über") == Uber
    ensures ValidUtf8(Uber)
  {
    AsciiIsUtf8("ber");
    assert "über"[1..] == "ber";
    assert EncodeChar('ü') == Umlaut;
    Utf8IsValid("über");
  }

  /** The escaped header of the Hash-or-String example. */
  lemma TokenUber()
    ensures ParseHeaders(TokenText) == Success(map[TokenKey := Uber])
  {
    TokenUberText();
    AsciiExcludes("token", Comma);
    AsciiExcludes("token", Equals);
    AsciiExcludes("token", Percent);
    AsciiValid("token");
    AsciiExcludes("ber", Comma);
    AsciiExcludes("ber", Percent);
    AsciiValid("ber");
    UmlautEntry(TokenKey, Ber);
  }

  /** `%C3%BCber=token`: keys are decoded too. */
  const UberTokenText: Bytes := Ascii("%C3%BCber=token")

  lemma UberTokenTextPieces()
    ensures UberTokenText == (UmlautEscape + Ber) + [Equals] + TokenKey
  {
    var parts := (UmlautEscape + Ber) + [Equals] + TokenKey;
    assert |UberTokenText| == 15 == |parts|;
    assert forall i :: 0 <= i < 15 ==> UberTokenText[i] == parts[i];
  }

  lemma EscapedKeyBytes()
    ensures Comma !in UmlautEscape + Ber && Equals !in UmlautEscape + Ber
  {
    var key := UmlautEscape + Ber;
    AsciiExcludes("ber", Comma);
    AsciiExcludes("ber", Equals);
    forall i | 0 <= i < |key| ensures key[i] != Comma && key[i] != Equals {
      if i >= 6 { assert key[i] == Ber[i - 6]; }
    }
  }

  /** The escaped key of the decoding example. */
  lemma UberToken()
    ensures ParseHeaders(UberTokenText) == Success(map[Uber := TokenKey])
  {
    var key := UmlautEscape + Ber;
    UberTokenTextPieces();
    EscapedKeyBytes();
    assert key[|key| - 1] == Ber[2];
    AsciiExcludes("ber", Percent);
    DecodeUmlautPrefix(Ber);
    UberIsUtf8();
    AsciiExcludes("token", Comma);
    AsciiExcludes("token", Percent);
    AsciiValid("token");
    ParseOne(key, TokenKey);
  }

  /** The Hash form and the escaped String form of the same header resolve alike. */
  lemma HashAndStringAgree(env: Env, agent: Bytes)
    ensures ResolveHeaders(Some(HashArg(map[TokenKey := Uber])), env, agent)
         == ResolveHeaders(Some(StringArg(TokenText)), env, agent)
    ensures ResolveHeaders(Some(StringArg(TokenText)), env, agent)
         == Success(map[TokenKey := Uber, UserAgent := agent])
  {
    var h := map[TokenKey := Uber];
    TokenUber();
    var r := ResolveHeaders(Some(StringArg(TokenText)), env, agent);
    assert r == ParsedWithAgent(TokenText, agent);
    assert r == Success(WithUserAgent(h, agent));
    TokenWithAgent(agent);
  }

  lemma TokenWithAgent(agent: Bytes)
    ensures WithUserAgent(map[TokenKey := Uber], agent) == map[TokenKey := Uber, UserAgent := agent]
  {
    TokenIsNotUserAgent();
  }

  lemma TokenIsNotUserAgent()
    ensures TokenKey != UserAgent
  {
    assert |TokenKey| != |UserAgent|;
  }

  /** With both HEADERS variables set, only the metrics-specific one is read. */
  lemma MetricsHeadersPreferred(env: Env, agent: Bytes)
    requires MetricsVar("HEADERS") in env && env[MetricsVar("HEADERS")] == TokenText
    requires GenericVar("HEADERS") in env && env[GenericVar("HEADERS")] == EqualsText
    ensures ResolveHeaders(None, env, agent) == Success(map[TokenKey := Uber, UserAgent := agent])
  {
    assert ConfigOpt(env, "HEADERS") == Some(TokenText);
    assert ResolveHeaders(None, env, agent) == ParsedWithAgent(TokenText, agent);
    TokenUber();
    TokenWithAgent(agent);
  }

  // ---------------------------------------------------------------- User-Agent from the environment

  /** `User-Agent=%C3%BCber/3.2.1`. */
  const BerVersion: Bytes := Ascii("ber/3.2.1")
  const AgentHeaderText: Bytes := Ascii("User-Agent=%C3%BCber/3.2.1")

  lemma AgentText()
    ensures AgentHeaderText == UserAgent + [Equals] + (UmlautEscape + BerVersion)
  {
    var parts := UserAgent + [Equals] + (UmlautEscape + BerVersion);
    assert |AgentHeaderText| == 26 == |parts|;
    assert forall i :: 0 <= i < 26 ==> AgentHeaderText[i] == parts[i];
  }

  /** The value of that header once decoded. */
  const UberVersion: Bytes := Umlaut + BerVersion

  lemma AgentHeaderParses()
    ensures ParseHeaders(AgentHeaderText) == Success(map[UserAgent := UberVersion])
  {
    AgentText();
    AsciiExcludes("User-Agent", Comma);
    AsciiExcludes("User-Agent", Equals);
    AsciiExcludes("User-Agent", Percent);
    AsciiValid("User-Agent");
    AsciiExcludes("ber/3.2.1", Comma);
    AsciiExcludes("ber/3.2.1", Percent);
    AsciiValid("ber/3.2.1");
    UmlautEntry(UserAgent, BerVersion);
  }

  /**
   * A User-Agent given in the HEADERS variable is kept, and the library's
   * own User-Agent follows it after a space.
   */
  lemma UserAgentFromEnvironmentIsExtended(env: Env, agent: Bytes)
    requires MetricsVar("HEADERS") !in env
    requires GenericVar("HEADERS") in env && env[GenericVar("HEADERS")] == AgentHeaderText
    ensures ResolveHeaders(None, env, agent)
         == Success(map[UserAgent := UberVersion + [Space] + agent])
  {
    assert ConfigOpt(env, "HEADERS") == Some(AgentHeaderText);
    assert ResolveHeaders(None, env, agent) == ParsedWithAgent(AgentHeaderText, agent);
    AgentHeaderParses();
    AgentAppended(UberVersion, agent);
  }

  lemma AgentAppended(v: Bytes, agent: Bytes)
    ensures WithUserAgent(map[UserAgent := v], agent) == map[UserAgent := v + [Space] + agent]
  {
  }
}
