/** What texts spell: numerals in their alphabets, the five names, and line ends. */
module XmlSpellings {
  import opened XmlText
  import opened XmlNumeric
  import opened XmlDecode
  import XmlUtf8
  import opened XmlStrPair

  const DECIMAL := "0123456789"
  const LOWER_HEX := "0123456789abcdef"
  const UPPER_HEX := "0123456789ABCDEF"

  /** The numeral of n, whose last digit is the remainder's place in the alphabet. */
  function Numeral(n: nat, alphabet: string): (s: string)
    requires |alphabet| >= 2
    ensures s != []
  {
    if n < |alphabet| then [alphabet[n]]
    else Numeral(n / |alphabet|, alphabet) + [alphabet[n % |alphabet|]]
  }

  /** The alphabets of the two kinds of reference. */
  predicate Alphabet(alphabet: string, hex: bool) {
    if hex then alphabet == LOWER_HEX || alphabet == UPPER_HEX else alphabet == DECIMAL
  }

  lemma DigitsAre(alphabet: string, hex: bool, k: nat)
    requires Alphabet(alphabet, hex) && k < |alphabet|
    ensures |alphabet| == Base(hex) && DigitValue(alphabet[k]) == k
  {
  }

  lemma {:induction false} NumeralIs(n: nat, alphabet: string, hex: bool)
    requires Alphabet(alphabet, hex)
    ensures var s := Numeral(n, alphabet); AllDigits(s, Base(hex)) && Positional(s, Base(hex)) == n
  {
    hide Alphabet, DigitValue;
    LengthIs(alphabet, hex);
    var base := |alphabet|;
    if n < base {
      DigitsAre(alphabet, hex, n);
      assert [alphabet[n]][..0] == [];
    } else {
      DigitsAre(alphabet, hex, n % base);
      NumeralIs(n / base, alphabet, hex);
      var high := Numeral(n / base, alphabet);
      assert Numeral(n, alphabet)[..|high|] == high;
    }
  }

  lemma LengthIs(alphabet: string, hex: bool)
    requires Alphabet(alphabet, hex)
    ensures |alphabet| == Base(hex) >= 10
  {
  }

  function ByteOf(c: char): bv32 {
    if c as int < 0x100 then c as int as bv32 else 0
  }

  /** The bytes of a text, one a character. */
  function BytesOf(text: string): (bytes: seq<bv32>)
    ensures |bytes| == |text| && forall i :: 0 <= i < |text| ==> bytes[i] == ByteOf(text[i])
  {
    seq(|text|, i requires 0 <= i < |text| => ByteOf(text[i]))
  }

  /** A text that is the UTF-8 form of a number (RFC 3629, section 3). */
  predicate IsUtf8Of(text: string, n: nat)
    requires n < 0x200000
  {
    && (forall i :: 0 <= i < |text| ==> text[i] as int < 0x100)
    && XmlUtf8.WellFormed(BytesOf(text)) && XmlUtf8.Decode(BytesOf(text)) == n as bv32
  }

  lemma TextIsUtf8(n: nat)
    requires n < 0x200000
    ensures IsUtf8Of(Utf8Text(n), n)
  {
    Encodable(n);
    hide XmlUtf8.Encode, XmlUtf8.WellFormed, XmlUtf8.Decode, BytesOf;
    XmlUtf8.DecodeEncode(n as bv32);
    BytesFit(XmlUtf8.Encode(n as bv32));
    BytesBack(n);
  }

  lemma Encodable(n: nat)
    requires n < 0x200000
    ensures n as bv32 < XmlUtf8.MAX_ENCODABLE
  {
    assert n as bv32 < 0x200000 || n >= 0x200000;
  }

  lemma BytesFit(bytes: seq<bv32>)
    requires XmlUtf8.WellFormed(bytes)
    ensures forall i :: 0 <= i < |bytes| ==> bytes[i] < 0x100
  {
  }

  lemma BytesBack(n: nat)
    requires n < 0x200000
    requires var bytes := XmlUtf8.Encode(n as bv32); forall i :: 0 <= i < |bytes| ==> bytes[i] < 0x100
    ensures BytesOf(Utf8Text(n)) == XmlUtf8.Encode(n as bv32)
    ensures forall i :: 0 <= i < |Utf8Text(n)| ==> Utf8Text(n)[i] as int < 0x100
  {
    hide XmlUtf8.Encode;
    var bytes, text := XmlUtf8.Encode(n as bv32), Utf8Text(n);
    forall i | 0 <= i < |bytes| ensures text[i] as int < 0x100 && ByteOf(text[i]) == bytes[i] {
      ByteAsChar(bytes[i]);
    }
  }

  lemma ByteAsChar(b: bv32)
    requires b < 0x100
    ensures ((b & 0xFF) as int as char) as int < 0x100 && ByteOf((b & 0xFF) as int as char) == b
  {
    ByteIsItself(b);
    ThereAndBack(b);
  }

  lemma ByteIsItself(b: bv32)
    requires b < 0x100
    ensures b & 0xFF == b && b as int < 0x100
  {
  }

  lemma ThereAndBack(b: bv32)
    requires b < 0x100
    ensures b as int < 0x100 && b as int as char as int as bv32 == b
  {
  }

  /** A numeral between its mark and a semicolon is read as the UTF-8 form of its number, whatever follows. */
  lemma NumeralIsRead(n: nat, alphabet: string, hex: bool, rest: string)
    requires 0 < n < 0x200000 && Alphabet(alphabet, hex)
    ensures var s := (if hex then "&#x" else "&#") + Numeral(n, alphabet) + ";";
            var r := CharacterRef(s + rest); r.Reference? && r.length == |s| && IsUtf8Of(r.text, n)
  {
    hide Utf8Text, CharacterRef, Numeral, Positional, AllDigits, Alphabet, IsUtf8Of, DigitValue;
    LengthIs(alphabet, hex);
    NumeralIs(n, alphabet, hex);
    TextIsUtf8(n);
    NoSemicolon(Numeral(n, alphabet), Base(hex));
    NumericReferenceValue(Numeral(n, alphabet), hex, rest);
    MarkIs(hex, Numeral(n, alphabet), rest);
  }

  lemma MarkIs(hex: bool, digits: string, rest: string)
    ensures var t := (if hex then "&#x" else "&#") + digits + ";" + rest;
            t != [] && t[0] == '&' && At(t, 1) == '#' && "&#" <= t
  {
  }

  /** In the buffer, such a reference becomes the UTF-8 form of its number. */
  lemma NumeralIsDecoded(n: nat, alphabet: string, hex: bool)
    requires 0 < n < 0x200000 && Alphabet(alphabet, hex)
    ensures IsUtf8Of(DecodeInPlace((if hex then "&#x" else "&#") + Numeral(n, alphabet) + ";", 0, "", TEXT_ELEMENT), n)
  {
    LengthIs(alphabet, hex);
    hide *;
    assert |alphabet| >= 2;
    var t := (if hex then "&#x" else "&#") + Numeral(n, alphabet) + ";";
    assert t + "" == t;
    NumeralIsRead(n, alphabet, hex, "");
    MarkIs(hex, Numeral(n, alphabet), "");
    ReferenceStep(t);
    SwallowedWhole(t, TEXT_ELEMENT);
  }

  lemma ReferenceStep(t: string)
    requires "&#" <= t && CharacterRef(t).Reference?
    ensures StepAt(t, TEXT_ELEMENT) == Consume(CharacterRef(t).length, CharacterRef(t).text)
  {
    hide CharacterRef;
    assert t[0] == '&' && t[1] == '#';
  }

  // ---------- the five names of section 4.6 of XML 1.0 ----------

  lemma NamesAreRead(rest: string)
    ensures EntityAt("&lt;" + rest, 0) == Reference(4, "<") && EntityAt("&gt;" + rest, 0) == Reference(4, ">")
    ensures EntityAt("&amp;" + rest, 0) == Reference(5, "&")
    ensures EntityAt("&quot;" + rest, 0) == Reference(6, "\"") && EntityAt("&apos;" + rest, 0) == Reference(6, "'")
  {
    NameIsRead(0, "&quot;", rest);
    NameIsRead(1, "&amp;", rest);
    NameIsRead(2, "&apos;", rest);
    NameIsRead(3, "&lt;", rest);
    NameIsRead(4, "&gt;", rest);
    hide EntityAt;
  }

  lemma NameIsRead(k: nat, spelling: string, rest: string)
    requires k < |ENTITIES| && spelling == "&" + ENTITIES[k].pattern + ";"
    ensures EntityAt(spelling + rest, 0) == Reference(|spelling|, [ENTITIES[k].value])
  {
    EntityIsFound(k, rest);
    hide EntityAt;
  }

  /** And so it is in the buffer of a StrPair. */
  method GetNumeral(pair: StrPair, n: nat, alphabet: string, hex: bool)
    requires 0 < n < 0x200000 && Alphabet(alphabet, hex) && |alphabet| >= 2
    requires pair.Valid() && pair.needsFlush && pair.flags == TEXT_ELEMENT
    requires pair.Raw() == (if hex then "&#x" else "&#") + Numeral(n, alphabet) + ";"
    modifies pair`needsFlush, pair.buffer
    ensures exists text :: IsUtf8Of(text, n) && pair.Holds(text)
  {
    hide Alphabet, Numeral, IsUtf8Of, DecodeInPlace;
    ghost var raw := pair.Raw();
    NumeralIsDecoded(n, alphabet, hex);
    NoNulInNumeral(n, alphabet, hex);
    pair.GetStr();
    assert pair.Holds(DecodeInPlace(raw, 0, "", TEXT_ELEMENT));
  }

  lemma NoNulInNumeral(n: nat, alphabet: string, hex: bool)
    requires Alphabet(alphabet, hex) && |alphabet| >= 2
    ensures NUL !in (if hex then "&#x" else "&#") + Numeral(n, alphabet) + ";"
  {
    LengthIs(alphabet, hex);
    NumeralIs(n, alphabet, hex);
    hide Numeral, Positional;
    var s := Numeral(n, alphabet);
    assert forall i :: 0 <= i < |s| ==> s[i] != NUL;
  }

  // ---------- line ends ----------

  /** A line without a line end in it, and one of the four ends there are. */
  datatype Line = Line(text: string, end: string)

  predicate IsLine(line: Line) {
    && line.text != "" && '\r' !in line.text && '\n' !in line.text && '&' !in line.text
    && line.end in {"\n", "\r\n", "\r", "\n\r"}
  }

  function Written(lines: seq<Line>): string {
    if lines == [] then "" else lines[0].text + (lines[0].end + Written(lines[1..]))
  }

  /** The same lines, each ended by a line feed. */
  function Normal(lines: seq<Line>): string {
    if lines == [] then "" else lines[0].text + ("\n" + Normal(lines[1..]))
  }

  /** Section 2.11 of XML 1.0: whatever ends a line is read as a line feed. */
  lemma {:induction false} LineEndsAreNormal(lines: seq<Line>, f: Flags)
    requires f.newlines && forall i :: 0 <= i < |lines| ==> IsLine(lines[i])
    ensures Decode(Written(lines), f) == Normal(lines)
  {
    hide Decode, Written, Normal;
    if lines == [] {
      NoLines(f);
    } else {
      var line, more := lines[0], Written(lines[1..]);
      assert IsLine(line);
      LineEndsAreNormal(lines[1..], f);
      WrittenStarts(lines[1..]);
      EndIsNormal(line.end, more, f);
      TextStays(line.text, line.end + more, f);
      OneLine(lines);
    }
  }

  lemma NoLines(f: Flags)
    ensures Decode(Written([]), f) == "" == Normal([])
  {
  }

  lemma OneLine(lines: seq<Line>)
    requires lines != []
    ensures Written(lines) == lines[0].text + (lines[0].end + Written(lines[1..]))
    ensures Normal(lines) == lines[0].text + ("\n" + Normal(lines[1..]))
  {
  }

  lemma WrittenStarts(lines: seq<Line>)
    requires forall i :: 0 <= i < |lines| ==> IsLine(lines[i])
    ensures var s := Written(lines); s != [] ==> s[0] != '\r' && s[0] != '\n'
  {
    if lines != [] {
      assert IsLine(lines[0]);
      assert Written(lines)[0] == lines[0].text[0] && lines[0].text[0] in lines[0].text;
    }
  }

  lemma EndIsNormal(end: string, more: string, f: Flags)
    requires f.newlines && end in {"\n", "\r\n", "\r", "\n\r"} && (more != [] ==> more[0] != '\r' && more[0] != '\n')
    ensures Decode(end + more, f) == "\n" + Decode(more, f)
  {
    hide Spelled, Decode;
    var t := end + more;
    assert t[0] == end[0] && At(t, 1) == if |end| == 2 then end[1] else At(more, 0);
    assert PureStep(t, f) == Consume(|end|, "\n");
    assert t[|end|..] == more;
    OneStep(t, f);
  }

  lemma {:induction false} TextStays(text: string, more: string, f: Flags)
    requires '\r' !in text && '\n' !in text && '&' !in text
    ensures Decode(text + more, f) == text + Decode(more, f)
  {
    hide Decode;
    if text == "" {
      assert text + more == more;
    } else {
      var t := text + more;
      assert t[0] == text[0] && text[0] in text;
      assert t[1..] == text[1..] + more;
      TextStays(text[1..], more, f);
      OneStep(t, f);
      assert text == [text[0]] + text[1..];
    }
  }

  // ---------- classes of characters, one by one ----------

  lemma CharactersAre(c: char)
    ensures IsWhiteSpace(c) <==> c in " \t\n\r\U{B}\U{C}"
    ensures IsNameStartChar(c) <==>
      c as int >= 0x80 || c in "ABCDEFGHIJKLMNOPQRSTUVWXYZ" || c in "abcdefghijklmnopqrstuvwxyz" || c in ":_"
    ensures IsNameChar(c) <==> IsNameStartChar(c) || c in "0123456789" || c in "-."
  {
    InRow(c, "ABCDEFGHIJKLMNOPQRSTUVWXYZ", 'A');
    InRow(c, "abcdefghijklmnopqrstuvwxyz", 'a');
    InRow(c, "0123456789", '0');
  }

  lemma InRow(c: char, row: string, first: char)
    requires forall k :: 0 <= k < |row| ==> row[k] as int == first as int + k
    ensures c in row <==> first as int <= c as int < first as int + |row|
  {
    var k := c as int - first as int;
    assert 0 <= k < |row| ==> row[k] == c;
  }

  // ---------- what is escaped ----------

  /** Three characters are always written as references, the two quotes except in a text, and no other at all. */
  lemma EscapesAre(before: string, c: char, restricted: bool)
    ensures Escape(before + [c], restricted) == Escape(before, restricted) +
      if c == '<' then "&lt;" else if c == '>' then "&gt;" else if c == '&' then "&amp;"
      else if c == '\"' && !restricted then "&quot;" else if c == '\'' && !restricted then "&apos;" else [c]
  {
    assert (before + [c])[..|before|] == before;
  }
}
