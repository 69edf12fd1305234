/** The text level of tinyxml2: character classes, the entity table, escaping as
  * the printer does it, and decoding as `GetStr` does it in place.
  *
  * A byte is a `char`; a C string is a `string`, and reading it at or past its
  * end gives NUL.
  */
module XmlText {
  import XmlUtf8

  const NUL := '\0'
  const CR := '\r'
  const LF := '\n'

  /** What a C string is to its reader: everything before the first NUL. */
  function CString(s: string): (c: string)
    ensures c <= s && NUL !in c
    ensures NUL !in s ==> c == s
  {
    if s == [] || s[0] == NUL then [] else [s[0]] + CString(s[1..])
  }

  function At(s: string, i: nat): char {
    if i < |s| then s[i] else NUL
  }

  // ---------- character classes (the C locale) ----------

  predicate IsWhiteSpace(c: char) {
    c == ' ' || '\t' <= c <= '\r'
  }

  predicate IsNameStartChar(c: char) {
    c as int >= 128 || 'a' <= c <= 'z' || 'A' <= c <= 'Z' || c == ':' || c == '_'
  }

  predicate IsNameChar(c: char) {
    IsNameStartChar(c) || '0' <= c <= '9' || c == '.' || c == '-'
  }

  // ---------- the entity table ----------

  datatype Entity = Entity(pattern: string, value: char)

  const ENTITIES: seq<Entity> := [
    Entity("quot", '\"'),
    Entity("amp", '&'),
    Entity("apos", '\''),
    Entity("lt", '<'),
    Entity("gt", '>')
  ]

  predicate NeedsEntity(c: char, restricted: bool) {
    c == '&' || c == '<' || c == '>' || (!restricted && (c == '\"' || c == '\''))
  }

  /** How the printer writes one character. */
  function EscapeChar(c: char, restricted: bool): string {
    if !NeedsEntity(c, restricted) then [c]
    else if c == '\"' then "&quot;"
    else if c == '&' then "&amp;"
    else if c == '\'' then "&apos;"
    else if c == '<' then "&lt;"
    else "&gt;"
  }

  function Escape(s: string, restricted: bool): string {
    if s == [] then [] else Escape(s[..|s| - 1], restricted) + EscapeChar(s[|s| - 1], restricted)
  }

  // ---------- references ----------

  /** A reference at the start of a text: how long it is and what it stands for. */
  datatype Reference = NoReference | Reference(length: nat, text: string)

  /** The first entity of the table that t (which starts with '&') spells out. */
  function EntityAt(t: string, i: nat): (r: Reference)
    requires i <= |ENTITIES|
    ensures r.Reference? ==> 1 <= |r.text| < r.length <= |t|
    decreases |ENTITIES| - i
  {
    if i == |ENTITIES| then NoReference
    else if "&" + ENTITIES[i].pattern + ";" <= t then Reference(|ENTITIES[i].pattern| + 2, [ENTITIES[i].value])
    else EntityAt(t, i + 1)
  }

  function IndexOf(s: string, c: char, from: nat): (k: nat)
    requires from <= |s|
    ensures from <= k <= |s| && (k < |s| ==> s[k] == c)
    ensures forall i :: from <= i < k ==> s[i] != c
    decreases |s| - from
  {
    if from == |s| || s[from] == c then from else IndexOf(s, c, from + 1)
  }

  const NOT_A_DIGIT := 16

  function DigitValue(c: char): (d: nat)
    ensures d <= NOT_A_DIGIT
  {
    if '0' <= c <= '9' then c as int - '0' as int
    else if 'a' <= c <= 'f' then c as int - 'a' as int + 10
    else if 'A' <= c <= 'F' then c as int - 'A' as int + 10
    else NOT_A_DIGIT
  }

  const TWO32 := 0x1_0000_0000

  datatype Scan = BadDigit | Value(ucs: nat)

  /** The digits before position q, read from right to left up to `mark`, in
    * unsigned 32-bit arithmetic; each digit must be below the base.
    */
  function ScanDigits(s: string, q: nat, mark: char, base: nat, mult: nat): Scan
    requires q <= |s| && exists i :: 0 <= i < q && s[i] == mark
  {
    if s[q - 1] == mark then Value(0)
    else if DigitValue(s[q - 1]) >= base then BadDigit
    else
      match ScanDigits(s, q - 1, mark, base, mult * base % TWO32)
      case BadDigit => BadDigit
      case Value(ucs) => Value(mult * DigitValue(s[q - 1]) % TWO32 + ucs)
  }

  function Utf8Text(ucs: nat): (text: string)
    ensures |text| <= 4 && (ucs == 0 ==> |text| == 1)
  {
    if ucs >= 0x200000 then []
    else
      var bytes := XmlUtf8.Encode(ucs as bv32);
      seq(|bytes|, i requires 0 <= i < |bytes| => (bytes[i] & 0xFF) as int as char)
  }

  /** `GetCharacterRef` on a text that starts with "&#". */
  function CharacterRef(t: string): (r: Reference)
    requires "&#" <= t
    ensures r.Reference? ==> |r.text| <= r.length && 1 <= r.length <= |t|
  {
    if At(t, 2) == NUL then Reference(1, [])
    else
      var hex := t[2] == 'x';
      var from := if hex then 3 else 2;
      if At(t, from) == NUL then NoReference
      else
        var q := IndexOf(t, ';', from);
        if q == |t| then NoReference
        else
          assert t[from - 1] == if hex then 'x' else '#';
          match ScanDigits(t, q, if hex then 'x' else '#', if hex then 16 else 10, 1)
          case BadDigit => NoReference
          case Value(ucs) => Reference(q + 1, Utf8Text(ucs))
  }

  /** What `GetStr` makes of the text t, which starts with '&'. */
  function ReferenceAt(t: string): (r: Reference)
    requires t != [] && t[0] == '&'
    ensures r.Reference? ==> |r.text| <= r.length && 1 <= r.length <= |t|
  {
    if At(t, 1) == '#' then CharacterRef(t) else EntityAt(t, 0)
  }

  // ---------- decoding ----------

  datatype Flags = Flags(entities: bool, newlines: bool)

  const TEXT_ELEMENT := Flags(true, true)
  const ATTRIBUTE_VALUE := Flags(true, true)
  const COMMENT := Flags(false, true)

  /** One step of `GetStr` at the start of t: the bytes consumed and written, or an ampersand that starts no reference. */
  datatype Step = Consume(length: nat, text: string) | StrayAmpersand

  function StepAt(t: string, f: Flags): (step: Step)
    requires t != []
    ensures step.Consume? ==> |step.text| <= step.length && 1 <= step.length <= |t|
  {
    if f.newlines && t[0] == CR then Consume(if At(t, 1) == LF then 2 else 1, [LF])
    else if f.newlines && t[0] == LF then Consume(if At(t, 1) == CR then 2 else 1, [LF])
    else if f.entities && t[0] == '&' then
      match ReferenceAt(t)
      case Reference(length, text) => Consume(length, text)
      case NoReference => if At(t, 1) == '#' then Consume(1, "&") else StrayAmpersand
    else Consume(1, [t[0]])
  }

  /** What `GetStr` leaves in the buffer, read position p, `out` written so far:
    * at a stray ampersand both pointers move on without a write, so the byte
    * that stays is the one the buffer had at the write position.
    */
  function DecodeInPlace(s: string, p: nat, out: string, f: Flags): (r: string)
    requires |out| <= p <= |s|
    ensures out <= r && |r| <= |s|
    decreases |s| - p
  {
    if p == |s| then out
    else
      match StepAt(s[p..], f)
      case Consume(length, text) => DecodeInPlace(s, p + length, out + text, f)
      case StrayAmpersand => DecodeInPlace(s, p + 1, out + [s[|out|]], f)
  }

  // ---------- escaping ----------

  /** The table has no entry whose spelling starts another's. */
  lemma EntityIsFound(k: nat, rest: string)
    requires k < |ENTITIES|
    ensures var spelling := "&" + ENTITIES[k].pattern + ";";
            EntityAt(spelling + rest, 0) == Reference(|spelling|, [ENTITIES[k].value])
  {
    var t := "&" + ENTITIES[k].pattern + ";" + rest;
    assert "&quot;" <= t ==> t[1] == "&quot;"[1];
    assert "&amp;" <= t ==> t[1] == "&amp;"[1] && t[2] == "&amp;"[2];
    assert "&apos;" <= t ==> t[1] == "&apos;"[1] && t[2] == "&apos;"[2];
    assert "&lt;" <= t ==> t[1] == "&lt;"[1];
    assert EntityAt(t, 0) == if k == 0 then Reference(6, "\"") else EntityAt(t, 1);
    assert k > 0 ==> EntityAt(t, 1) == if k == 1 then Reference(5, "&") else EntityAt(t, 2);
    assert k > 1 ==> EntityAt(t, 2) == if k == 2 then Reference(6, "'") else EntityAt(t, 3);
    assert k > 2 ==> EntityAt(t, 3) == if k == 3 then Reference(4, "<") else EntityAt(t, 4);
  }

  /** Characters that survive newline normalisation and end no C string. */
  predicate PlainText(s: string) {
    CR !in s && NUL !in s
  }

  /** Where the table has the entity that stands for c. */
  function TableIndex(c: char): (k: nat)
    requires NeedsEntity(c, false)
    ensures k < |ENTITIES| && ENTITIES[k].value == c && ENTITIES[k].pattern[0] != '#'
    ensures forall restricted :: NeedsEntity(c, restricted) ==> EscapeChar(c, restricted) == "&" + ENTITIES[k].pattern + ";"
  {
    if c == '\"' then 0 else if c == '&' then 1 else if c == '\'' then 2 else if c == '<' then 3 else 4
  }

  lemma {:induction false} EscapeSplit(s: string, i: nat, restricted: bool)
    requires i < |s|
    ensures Escape(s[i..], restricted) == EscapeChar(s[i], restricted) + Escape(s[i + 1..], restricted)
    decreases |s|
  {
    hide EscapeChar;
    var n := |s| - 1;
    assert s[i..][..|s[i..]| - 1] == s[..n][i..];
    if i == n {
      assert s[i..][..0] == [] && s[i + 1..] == [];
    } else {
      EscapeSplit(s[..n], i, restricted);
      assert s[i + 1..][..|s[i + 1..]| - 1] == s[..n][i + 1..];
    }
  }

  lemma {:induction false} EscapeHasNoCR(s: string, restricted: bool)
    requires PlainText(s)
    ensures PlainText(Escape(s, restricted))
  {
    if s != [] {
      EscapeHasNoCR(s[..|s| - 1], restricted);
    }
  }

  /** The escaped form never contains what ends it: '<' after a text, '"' after an attribute value. */
  lemma {:induction false} EscapeIsTerminated(s: string, restricted: bool)
    ensures '<' !in Escape(s, restricted)
    ensures !restricted ==> '\"' !in Escape(s, restricted)
  {
    if s != [] {
      EscapeIsTerminated(s[..|s| - 1], restricted);
    }
  }
}
