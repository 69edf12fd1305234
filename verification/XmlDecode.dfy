/** What an escaped text stands for, and when the decoder's buffer holds that. */
module XmlDecode {
  import opened XmlText
  import opened XmlNumeric
  import XmlUtf8

  // ---------- references, as they are spelled ----------

  /** The digits at the start of t. */
  function Digits(t: string, base: nat): (d: string)
    ensures d <= t && AllDigits(d, base)
    ensures |d| < |t| ==> DigitValue(t[|d|]) >= base
  {
    if t == [] || DigitValue(t[0]) >= base then [] else [t[0]] + Digits(t[1..], base)
  }

  function Base(hex: bool): nat {
    if hex then 16 else 10
  }

  function Prefix(hex: bool): string {
    if hex then "&#x" else "&#"
  }

  /** A number that has a form in UTF-8 and is no NUL, between its mark and a semicolon. */
  function NumberAt(t: string, hex: bool): (r: Reference)
    ensures r.Reference? ==> 1 <= r.length <= |t|
  {
    if !(Prefix(hex) <= t) then NoReference
    else
      var digits := Digits(t[|Prefix(hex)|..], Base(hex));
      var n, end := Positional(digits, Base(hex)), |Prefix(hex)| + |digits|;
      if digits == [] || At(t, end) != ';' || n == 0 || n >= 0x200000 then NoReference
      else Reference(end + 1, Utf8Text(n))
  }

  /** An entity of the table or a number. */
  function Spelled(t: string): (r: Reference)
    ensures r.Reference? ==> 1 <= r.length <= |t|
  {
    match EntityAt(t, 0)
    case Reference(length, text) => Reference(length, text)
    case NoReference => if NumberAt(t, false).Reference? then NumberAt(t, false) else NumberAt(t, true)
  }

  /** Newlines become line feeds, references what they stand for, and all else stays. */
  function PureStep(t: string, f: Flags): (step: Step)
    requires t != []
    ensures step.Consume? && 1 <= step.length <= |t|
  {
    if f.newlines && t[0] == CR then Consume(if At(t, 1) == LF then 2 else 1, [LF])
    else if f.newlines && t[0] == LF then Consume(if At(t, 1) == CR then 2 else 1, [LF])
    else if f.entities && t[0] == '&' && Spelled(t).Reference? then Consume(Spelled(t).length, Spelled(t).text)
    else Consume(1, [t[0]])
  }

  /** The text that s stands for. */
  function Decode(s: string, f: Flags): string
    decreases |s|
  {
    if s == [] then [] else var step := PureStep(s, f); step.text + Decode(s[step.length..], f)
  }

  // ---------- one step of the program ----------

  /** A number that is spelled is read. */
  lemma NumberIsRead(t: string, hex: bool)
    requires NumberAt(t, hex).Reference?
    ensures ReferenceAt(t) == NumberAt(t, hex) && At(t, 1) == '#'
  {
    hide ReferenceAt, Positional, Utf8Text, DigitValue;
    var digits := Digits(t[|Prefix(hex)|..], Base(hex));
    var end := |Prefix(hex)| + |digits|;
    var rest := t[end + 1..];
    assert t == Prefix(hex) + digits + ";" + rest by {
      Parts(t, Prefix(hex), digits);
    }
    NoSemicolon(digits, Base(hex));
    NumericReferenceValue(digits, hex, rest);
  }

  lemma Parts(t: string, prefix: string, digits: string)
    requires prefix <= t && digits <= t[|prefix|..] && At(t, |prefix| + |digits|) == ';'
    ensures t == prefix + digits + ";" + t[|prefix| + |digits| + 1..]
  {
    assert t == prefix + t[|prefix|..];
    assert t[|prefix|..] == digits + t[|prefix| + |digits|..];
    assert t[|prefix| + |digits|..] == ";" + t[|prefix| + |digits| + 1..];
  }

  lemma NoSemicolon(digits: string, base: nat)
    requires AllDigits(digits, base) && base <= 16
    ensures ';' !in digits && '#' !in digits && 'x' !in digits && '&' !in digits
  {
  }

  lemma {:induction false} EntityIsSpelled(t: string, i: nat) returns (k: nat)
    requires i <= |ENTITIES| && EntityAt(t, i).Reference?
    ensures k < |ENTITIES| && "&" + ENTITIES[k].pattern + ";" <= t && EntityAt(t, i).length == |ENTITIES[k].pattern| + 2
    ensures EntityAt(t, i).text == [ENTITIES[k].value]
    decreases |ENTITIES| - i
  {
    if "&" + ENTITIES[i].pattern + ";" <= t {
      k := i;
    } else {
      k := EntityIsSpelled(t, i + 1);
    }
  }

  lemma EntityIsRead(t: string)
    requires EntityAt(t, 0).Reference?
    ensures t != [] && t[0] == '&' && ReferenceAt(t) == EntityAt(t, 0)
  {
    hide EntityAt;
    var k := EntityIsSpelled(t, 0);
    assert t[1] == ENTITIES[k].pattern[0];
  }

  lemma SpelledIsRead(t: string)
    requires Spelled(t).Reference?
    ensures t != [] && t[0] == '&' && ReferenceAt(t) == Spelled(t)
  {
    hide ReferenceAt, EntityAt;
    if EntityAt(t, 0).Reference? {
      EntityIsRead(t);
    } else if NumberAt(t, false).Reference? {
      NumberIsRead(t, false);
    } else {
      NumberIsRead(t, true);
    }
  }

  /** Marks that spell no number, and are taken for one all the same: nothing follows "&#", or the last
    * mark before the first semicolon has digits of its base behind it, perhaps none, whatever is between. */
  predicate Swallowed(t: string, f: Flags) {
    f.entities && "&#" <= t && Spelled(t) == NoReference && CharacterRef(t).Reference?
  }

  /** At an ampersand that starts no reference, nothing is written. */
  predicate Stray(t: string, f: Flags)
    requires t != []
  {
    f.entities && t[0] == '&' && Spelled(t) == NoReference && At(t, 1) != '#'
  }

  /** Everything else is decoded as it should be. */
  lemma StepIs(t: string, f: Flags)
    requires t != []
    ensures Stray(t, f) <==> StepAt(t, f) == StrayAmpersand
    ensures Stray(t, f) ==> PureStep(t, f) == Consume(1, "&")
    ensures Swallowed(t, f) ==>
      StepAt(t, f) == Consume(CharacterRef(t).length, CharacterRef(t).text) && PureStep(t, f) == Consume(1, "&")
    ensures !Stray(t, f) && !Swallowed(t, f) ==> StepAt(t, f) == PureStep(t, f)
  {
    hide EntityAt, CharacterRef, NumberAt;
    if f.entities && t[0] == '&' {
      if Spelled(t).Reference? {
        SpelledIsRead(t);
      } else {
        assert "&#" <= t <==> At(t, 1) == '#';
      }
    }
  }

  // ---------- what is swallowed ----------

  ghost predicate MarkedDigits(t: string, j: nat, q: nat, hex: bool) {
    && j < q < |t| && t[q] == ';' && ';' !in t[..q] && t[j] == Mark(hex)
    && AllDigits(t[j + 1..q], Base(hex))
  }

  function Mark(hex: bool): char {
    if hex then 'x' else '#'
  }

  /** The scan ends at the last mark. */
  lemma {:induction false} ScanStops(t: string, q: nat, hex: bool, mult: nat) returns (j: nat)
    requires q <= |t| && (exists i :: 0 <= i < q && t[i] == Mark(hex)) && ScanDigits(t, q, Mark(hex), Base(hex), mult).Value?
    ensures j < q && t[j] == Mark(hex) && AllDigits(t[j + 1..q], Base(hex))
  {
    if t[q - 1] == Mark(hex) {
      j := q - 1;
    } else {
      j := ScanStops(t, q - 1, hex, mult * Base(hex) % TWO32);
      assert t[j + 1..q] == t[j + 1..q - 1] + [t[q - 1]];
    }
  }

  /** What a reference that is read consists of. */
  lemma ReadIs(t: string) returns (j: nat, hex: bool)
    requires "&#" <= t && CharacterRef(t).Reference? && CharacterRef(t).length > 1
    ensures hex == (At(t, 2) == 'x')
    ensures var q := CharacterRef(t).length - 1;
            && 1 <= j && MarkedDigits(t, j, q, hex)
            && ScanDigits(t, q, Mark(hex), Base(hex), 1).Value?
            && CharacterRef(t).text == Utf8Text(ScanDigits(t, q, Mark(hex), Base(hex), 1).ucs)
  {
    hide ScanDigits, AllDigits, Utf8Text;
    hex := At(t, 2) == 'x';
    var q := IndexOf(t, ';', if hex then 3 else 2);
    assert t[if hex then 2 else 1] == Mark(hex);
    j := ScanStops(t, q, hex, 1);
    assert t[0] == '&' && t[1] == '#';
  }

  /** So a mark is swallowed exactly if it spells no number, and nothing follows it, or from some mark
    * of its kind there are only digits, if any, up to the first semicolon. */
  lemma SwallowedIff(t: string, f: Flags)
    requires NUL !in t
    ensures Swallowed(t, f) <==>
      && f.entities && "&#" <= t && Spelled(t) == NoReference
      && (|t| == 2 || exists j, q :: DigitsFollow(t, j, q))
  {
    hide *;
    if "&#" <= t {
      if |t| == 2 {
        NothingFollows(t);
      } else if CharacterRef(t).Reference? {
        LongerReference(t);
        var j, hex := ReadIs(t);
        FollowIs(t, j, CharacterRef(t).length - 1);
      } else if j, q :| DigitsFollow(t, j, q) {
        DigitsAreRead(t, j, q);
      }
    }
    SwallowedIs(t, f);
  }

  /** The mark at j is of the kind that t begins with, and digits are between it and the semicolon at q. */
  ghost predicate DigitsFollow(t: string, j: nat, q: nat) {
    MarkedDigits(t, j, q, At(t, 2) == 'x')
  }

  lemma FollowIs(t: string, j: nat, q: nat)
    ensures DigitsFollow(t, j, q) == MarkedDigits(t, j, q, At(t, 2) == 'x')
  {
  }

  lemma SwallowedIs(t: string, f: Flags)
    ensures Swallowed(t, f) <==> f.entities && "&#" <= t && Spelled(t) == NoReference && CharacterRef(t).Reference?
  {
    hide CharacterRef, Spelled;
  }

  lemma NothingFollows(t: string)
    requires "&#" <= t && |t| == 2
    ensures CharacterRef(t).Reference?
  {
  }

  lemma LongerReference(t: string)
    requires "&#" <= t && |t| > 2 && NUL !in t && CharacterRef(t).Reference?
    ensures CharacterRef(t).length > 1
  {
    hide ScanDigits, Utf8Text;
  }

  lemma DigitsAreRead(t: string, j: nat, q: nat)
    requires "&#" <= t && |t| > 2 && NUL !in t && DigitsFollow(t, j, q)
    ensures CharacterRef(t).Reference?
  {
    hide ScanDigits, Utf8Text, Positional;
    var hex := t[2] == 'x';
    var from := if hex then 3 else 2;
    assert forall i :: 0 <= i < q ==> t[..q][i] == t[i];
    assert from <= q;
    assert IndexOf(t, ';', from) == q;
    NoSemicolon(t[j + 1..q], Base(hex));
    var wraps := ScanIsCongruent(t, j + 1, q, Mark(hex), Base(hex), 1);
  }

  /** No reference that is spelled goes beyond the digits, or stands for anything else than they do. */
  lemma SpelledInside(t: string, i: nat, j: nat, q: nat, hex: bool)
    requires i <= j && MarkedDigits(t, j, q, hex) && Spelled(t[i..]).Reference?
    ensures Spelled(t[i..]).length == q + 1 - i
    ensures var scan := ScanDigits(t, q, Mark(hex), Base(hex), 1); scan.Value? && Spelled(t[i..]).text == Utf8Text(scan.ucs)
  {
    hide EntityAt, NumberAt, ScanDigits, Utf8Text, AllDigits;
    if EntityAt(t[i..], 0).Reference? {
      NoMarkInEntity(t, i, j, q, hex);
    } else {
      NumberInside(t, i, j, q, hex, !NumberAt(t[i..], false).Reference?);
    }
  }

  lemma NoMarkInEntity(t: string, i: nat, j: nat, q: nat, hex: bool)
    requires i <= j < q < |t| && t[q] == ';' && ';' !in t[..q] && t[j] == Mark(hex)
    ensures EntityAt(t[i..], 0) == NoReference
  {
    hide EntityAt;
    EntityHasNoMark(t[i..]);
    assert t[i..][j - i] == t[j];
    assert forall m :: 0 <= m < q - i ==> t[i..][m] == t[..q][i + m];
  }

  lemma EntityHasNoMark(t: string)
    ensures var r := EntityAt(t, 0);
            r.Reference? ==> t[r.length - 1] == ';' && forall m :: 0 <= m < r.length ==> t[m] != '#' && t[m] != 'x'
  {
    hide EntityAt;
    if EntityAt(t, 0).Reference? {
      var k := EntityIsSpelled(t, 0);
      var spelling := "&" + ENTITIES[k].pattern + ";";
      assert forall m :: 0 <= m < |spelling| ==> t[m] == spelling[m];
    }
  }

  lemma NoEntityAtMark(t: string)
    requires "&#" <= t
    ensures EntityAt(t, 0) == NoReference
  {
    hide EntityAt;
    EntityHasNoMark(t);
    assert t[1] == '#';
  }

  lemma NumberInside(t: string, i: nat, j: nat, q: nat, hex: bool, spelledHex: bool)
    requires i <= j && MarkedDigits(t, j, q, hex) && NumberAt(t[i..], spelledHex).Reference?
    ensures NumberAt(t[i..], spelledHex).length == q + 1 - i
    ensures var scan := ScanDigits(t, q, Mark(hex), Base(hex), 1);
            scan.Value? && NumberAt(t[i..], spelledHex).text == Utf8Text(scan.ucs)
  {
    hide *;
    MarkIsThere(t, j, q, hex);
    var digits := NumberParts(t[i..], spelledHex);
    SameDigits(t, i, j, q, hex, spelledHex, digits);
    BaseIs(hex);
    NoSemicolon(digits, Base(hex));
    ScanIsPositional(t, j + 1, q, Mark(hex), Base(hex), 1);
  }

  lemma BaseIs(hex: bool)
    ensures 0 < Base(hex) <= 16 && (Mark(hex) == 'x' || Mark(hex) == '#')
  {
  }

  lemma NumberParts(t: string, hex: bool) returns (digits: string)
    requires NumberAt(t, hex).Reference?
    ensures Prefix(hex) + digits + ";" <= t && AllDigits(digits, Base(hex))
    ensures Positional(digits, Base(hex)) < TWO32
    ensures NumberAt(t, hex) == Reference(|Prefix(hex)| + |digits| + 1, Utf8Text(Positional(digits, Base(hex))))
  {
    hide Utf8Text, Positional, DigitValue;
    digits := Digits(t[|Prefix(hex)|..], Base(hex));
    Parts(t, Prefix(hex), digits);
  }

  lemma SameDigits(t: string, i: nat, j: nat, q: nat, hex: bool, spelledHex: bool, digits: string)
    requires i <= j && MarkedDigits(t, j, q, hex) && Prefix(spelledHex) + digits + ";" <= t[i..]
    requires AllDigits(digits, Base(spelledHex))
    ensures spelledHex == hex && i + |Prefix(hex)| + |digits| == q && t[j + 1..q] == digits
  {
    var spelling := Prefix(spelledHex) + digits + ";";
    NoSemicolon(digits, Base(spelledHex));
    assert forall m :: 0 <= m < |spelling| ==> t[i + m] == spelling[m];
    assert t[i + |spelling| - 1] == ';';
    assert i + |spelling| - 1 == q;
    assert spelling[j - i] == Mark(hex);
    assert j - i == |Prefix(spelledHex)| - 1 || (spelledHex && !hex && j - i == 1);
    assert spelledHex ==> t[i + 2] == 'x';
    assert j + 1 < q ==> t[j + 1..q][0] == t[j + 1];
    assert forall m :: 0 <= m < |digits| ==> spelling[|Prefix(spelledHex)| + m] == digits[m];
  }

  // ---------- lengths ----------

  lemma {:induction false} DigitsStay(t: string, a: nat, q: nat, base: nat, f: Flags)
    requires a <= q < |t| && t[q] == ';' && AllDigits(t[a..q], base) && base <= 16
    ensures |Decode(t[a..], f)| == q + 1 - a + |Decode(t[q + 1..], f)|
    decreases q - a
  {
    assert t[a..][1..] == t[a + 1..];
    assert a < q ==> t[a] == t[a..q][0] && DigitValue(t[a]) < base;
    assert PureStep(t[a..], f) == Consume(1, [t[a]]);
    hide PureStep, DigitValue;
    if a < q {
      assert t[a + 1..q] == t[a..q][1..];
      DigitsStay(t, a + 1, q, base, f);
    }
  }

  lemma ShortText(t: string, j: nat, q: nat, hex: bool)
    requires MarkedDigits(t, j, q, hex) && ScanDigits(t, q, Mark(hex), Base(hex), 1).Value?
    ensures |Utf8Text(ScanDigits(t, q, Mark(hex), Base(hex), 1).ucs)| <= q + 1 - j
  {
    if q == j + 1 {
      assert ScanDigits(t, q, Mark(hex), Base(hex), 1) == Value(0);
    } else if q == j + 2 {
      assert t[j + 1..q][0] == t[j + 1];
      assert t[j + 1] != Mark(hex);
      assert ScanDigits(t, q - 1, Mark(hex), Base(hex), Base(hex)) == Value(0);
      OneByteText(DigitValue(t[j + 1]));
    }
  }

  lemma OneByteText(n: nat)
    requires n < 0x80
    ensures |Utf8Text(n)| == 1
  {
    assert n as bv32 < 0x80;
  }

  /** Decoded on its own, what is swallowed leaves at least as much as is written for it. */
  lemma {:induction false} Outlasts(t: string, i: nat, j: nat, q: nat, hex: bool, f: Flags)
    requires i <= j && MarkedDigits(t, j, q, hex) && ScanDigits(t, q, Mark(hex), Base(hex), 1).Value?
    ensures |Decode(t[i..], f)| >= |Utf8Text(ScanDigits(t, q, Mark(hex), Base(hex), 1).ucs)| + |Decode(t[q + 1..], f)|
    decreases j - i
  {
    hide *;
    MarkIsThere(t, j, q, hex);
    assert t[i..] != [];
    var step := PureStep(t[i..], f);
    assert |Decode(t[i..], f)| == |step.text| + |Decode(t[i + step.length..], f)| by {
      OneStep(t[i..], f);
      assert t[i..][step.length..] == t[i + step.length..];
    }
    if f.entities && t[i] == '&' && Spelled(t[i..]).Reference? {
      StepIsSpelled(t[i..], f);
      SpelledInside(t, i, j, q, hex);
    } else if i == j {
      ShortText(t, j, q, hex);
      MarkStays(t, j, q, hex, f);
    } else {
      NoStepOver(t, i, j, hex, f);
      Outlasts(t, i + step.length, j, q, hex, f);
    }
  }

  lemma MarkIsThere(t: string, j: nat, q: nat, hex: bool)
    requires MarkedDigits(t, j, q, hex)
    ensures j < q < |t| && t[j] == Mark(hex)
  {
  }

  lemma StepIsSpelled(t: string, f: Flags)
    requires t != [] && f.entities && t[0] == '&' && Spelled(t).Reference?
    ensures PureStep(t, f) == Consume(Spelled(t).length, Spelled(t).text)
  {
    hide Spelled;
  }

  lemma NoStepOver(t: string, i: nat, j: nat, hex: bool, f: Flags)
    requires i < j < |t| && t[j] == Mark(hex) && !(f.entities && t[i] == '&' && Spelled(t[i..]).Reference?)
    ensures i + PureStep(t[i..], f).length <= j
  {
    hide Spelled;
    assert t[i..][1] == t[i + 1];
  }

  lemma MarkStays(t: string, j: nat, q: nat, hex: bool, f: Flags)
    requires MarkedDigits(t, j, q, hex)
    ensures |Decode(t[j..], f)| == q + 1 - j + |Decode(t[q + 1..], f)|
  {
    assert t[j..][1..] == t[j + 1..];
    assert PureStep(t[j..], f) == Consume(1, [t[j]]);
    hide PureStep;
    DigitsStay(t, j + 1, q, Base(hex), f);
  }

  lemma SwallowedIsShorter(t: string, f: Flags)
    requires Swallowed(t, f)
    ensures var r := CharacterRef(t); |r.text| + |Decode(t[r.length..], f)| < |Decode(t, f)|
  {
    hide CharacterRef, Decode, Spelled, ScanDigits, Utf8Text, MarkedDigits;
    var r := CharacterRef(t);
    assert |Decode(t, f)| == 1 + |Decode(t[1..], f)| by {
      StepIs(t, f);
      OneStep(t, f);
    }
    if r.length == 1 {
      BareMark(t);
    } else {
      var j, hex := ReadIs(t);
      Outlasts(t, 1, j, r.length - 1, hex, f);
    }
  }

  lemma OneStep(t: string, f: Flags)
    requires t != []
    ensures var step := PureStep(t, f); Decode(t, f) == step.text + Decode(t[step.length..], f)
  {
  }

  lemma BareMark(t: string)
    requires "&#" <= t && CharacterRef(t).Reference? && CharacterRef(t).length == 1
    ensures CharacterRef(t).text == []
  {
    hide ScanDigits, Utf8Text;
  }

  // ---------- the buffer holds the decoded text exactly if ... ----------

  /** At every stray ampersand the byte at the write position is an ampersand, too, and no mark is swallowed. */
  predicate AmpersandsSurvive(s: string, p: nat, out: string, f: Flags)
    requires |out| <= p <= |s|
    decreases |s| - p
  {
    p == |s|
    || (!Swallowed(s[p..], f)
        && match StepAt(s[p..], f)
           case Consume(length, text) => AmpersandsSurvive(s, p + length, out + text, f)
           case StrayAmpersand => s[|out|] == '&' && AmpersandsSurvive(s, p + 1, out + "&", f))
  }

  /** Never is more than the decoded text written, and where a mark is swallowed less. */
  lemma {:induction false} NeverLonger(s: string, p: nat, out: string, f: Flags)
    requires |out| <= p <= |s|
    ensures |DecodeInPlace(s, p, out, f)| <= |out| + |Decode(s[p..], f)|
    ensures p < |s| && Swallowed(s[p..], f) ==> |DecodeInPlace(s, p, out, f)| < |out| + |Decode(s[p..], f)|
    decreases |s| - p
  {
    hide *;
    if p == |s| {
      AtTheEnd(s, out, f);
    } else {
      var t := s[p..];
      StepIs(t, f);
      OneStep(t, f);
      OneStepInPlace(s, p, out, f);
      assert t[1..] == s[p + 1..];
      if StepAt(t, f) == StrayAmpersand {
        NeverLonger(s, p + 1, out + [s[|out|]], f);
      } else {
        var step := StepAt(t, f);
        assert t[step.length..] == s[p + step.length..];
        NeverLonger(s, p + step.length, out + step.text, f);
        if Swallowed(t, f) {
          SwallowedIsShorter(t, f);
        }
      }
    }
  }

  lemma OneStepInPlace(s: string, p: nat, out: string, f: Flags)
    requires |out| <= p < |s|
    ensures DecodeInPlace(s, p, out, f)
         == match StepAt(s[p..], f)
            case Consume(length, text) => DecodeInPlace(s, p + length, out + text, f)
            case StrayAmpersand => DecodeInPlace(s, p + 1, out + [s[|out|]], f)
  {
    hide StepAt;
  }

  /** The buffer ends up holding the text that was spelled exactly when no ampersand that starts no
    * reference is overwritten by a stale byte or swallowed.
    */
  lemma {:induction false} InPlaceIsDecode(s: string, p: nat, out: string, f: Flags)
    requires |out| <= p <= |s|
    ensures DecodeInPlace(s, p, out, f) == out + Decode(s[p..], f) <==> AmpersandsSurvive(s, p, out, f)
    decreases |s| - p
  {
    hide StepAt, PureStep, Swallowed, Stray, DecodeInPlace, Decode, AmpersandsSurvive;
    if p == |s| {
      AtTheEnd(s, out, f);
    } else {
      var t := s[p..];
      StepIs(t, f);
      if Swallowed(t, f) {
        NeverLonger(s, p, out, f);
        NotSwallowed(s, p, out, f);
      } else if Stray(t, f) {
        if s[|out|] == '&' {
          InPlaceIsDecode(s, p + 1, out + "&", f);
          OnAfterStray(s, p, out, f);
        } else {
          StaleIsSeen(s, p, out, f);
        }
      } else {
        var step := StepAt(t, f);
        InPlaceIsDecode(s, p + step.length, out + step.text, f);
        OnAfterConsume(s, p, out, step.length, step.text, f);
      }
    }
  }

  lemma AtTheEnd(s: string, out: string, f: Flags)
    requires |out| <= |s|
    ensures DecodeInPlace(s, |s|, out, f) == out + Decode(s[|s|..], f) && AmpersandsSurvive(s, |s|, out, f)
  {
    assert out + Decode(s[|s|..], f) == out;
  }

  lemma NotSwallowed(s: string, p: nat, out: string, f: Flags)
    requires |out| <= p < |s| && Swallowed(s[p..], f)
    ensures !AmpersandsSurvive(s, p, out, f)
  {
    hide Swallowed, StepAt;
  }

  lemma OnAfterConsume(s: string, p: nat, out: string, length: nat, text: string, f: Flags)
    requires |out| <= p < |s| && !Swallowed(s[p..], f)
    requires StepAt(s[p..], f) == Consume(length, text) == PureStep(s[p..], f)
    ensures DecodeInPlace(s, p, out, f) == DecodeInPlace(s, p + length, out + text, f)
    ensures out + Decode(s[p..], f) == (out + text) + Decode(s[p + length..], f)
    ensures AmpersandsSurvive(s, p, out, f) == AmpersandsSurvive(s, p + length, out + text, f)
  {
    hide StepAt, PureStep, Swallowed;
    Regroup(s, p, length, out, text, f);
  }

  lemma OnAfterStray(s: string, p: nat, out: string, f: Flags)
    requires |out| <= p < |s| && !Swallowed(s[p..], f) && s[|out|] == '&'
    requires StepAt(s[p..], f) == StrayAmpersand && PureStep(s[p..], f) == Consume(1, "&")
    ensures DecodeInPlace(s, p, out, f) == DecodeInPlace(s, p + 1, out + "&", f)
    ensures out + Decode(s[p..], f) == (out + "&") + Decode(s[p + 1..], f)
    ensures AmpersandsSurvive(s, p, out, f) == AmpersandsSurvive(s, p + 1, out + "&", f)
  {
    hide StepAt, PureStep, Swallowed;
    Regroup(s, p, 1, out, "&", f);
    assert out + [s[|out|]] == out + "&";
  }

  lemma Regroup(s: string, p: nat, length: nat, out: string, text: string, f: Flags)
    requires p + length <= |s|
    ensures s[p..][length..] == s[p + length..]
    ensures out + (text + Decode(s[p + length..], f)) == (out + text) + Decode(s[p + length..], f)
  {
  }

  lemma StaleIsSeen(s: string, p: nat, out: string, f: Flags)
    requires |out| <= p < |s| && !Swallowed(s[p..], f) && s[|out|] != '&'
    requires StepAt(s[p..], f) == StrayAmpersand && PureStep(s[p..], f) == Consume(1, "&")
    ensures DecodeInPlace(s, p, out, f) != out + Decode(s[p..], f) && !AmpersandsSurvive(s, p, out, f)
  {
    hide StepAt, PureStep, Swallowed;
    var out1 := out + [s[|out|]];
    assert DecodeInPlace(s, p, out, f)[|out|] == out1[|out|] == s[|out|];
    assert (out + ("&" + Decode(s[p..][1..], f)))[|out|] == '&';
  }

  // ---------- texts of which every ampersand starts a reference ----------

  predicate NoStrayAmpersand(s: string, f: Flags)
    decreases |s|
  {
    s == [] || ((f.entities && s[0] == '&' ==> Spelled(s).Reference?) && NoStrayAmpersand(s[PureStep(s, f).length..], f))
  }

  lemma {:induction false} NothingStrayNothingLost(s: string, p: nat, out: string, f: Flags)
    requires |out| <= p <= |s| && NoStrayAmpersand(s[p..], f)
    ensures AmpersandsSurvive(s, p, out, f)
    decreases |s| - p
  {
    hide *;
    if p == |s| {
      AtTheEnd(s, out, f);
    } else {
      var t := s[p..];
      AllIsRead(t, f);
      var step := StepAt(t, f);
      assert t[step.length..] == s[p + step.length..];
      NothingStrayNothingLost(s, p + step.length, out + step.text, f);
      SurviveStep(s, p, out, f);
    }
  }

  lemma AllIsRead(t: string, f: Flags)
    requires t != [] && NoStrayAmpersand(t, f)
    ensures !Swallowed(t, f) && StepAt(t, f) == PureStep(t, f) && NoStrayAmpersand(t[PureStep(t, f).length..], f)
  {
    StepIs(t, f);
    hide StepAt, PureStep, Spelled;
  }

  lemma SurviveStep(s: string, p: nat, out: string, f: Flags)
    requires |out| <= p < |s| && !Swallowed(s[p..], f) && StepAt(s[p..], f).Consume?
    ensures var step := StepAt(s[p..], f);
            AmpersandsSurvive(s, p, out, f) == AmpersandsSurvive(s, p + step.length, out + step.text, f)
  {
    hide StepAt, Swallowed;
  }

  /** And a text without NUL stands for one without: it is read as a whole. */
  lemma {:induction false} DecodedHasNoNul(s: string, f: Flags)
    requires NUL !in s
    ensures NUL !in Decode(s, f)
    decreases |s|
  {
    if s != [] {
      PureStepHasNoNul(s, f);
      hide PureStep;
      DecodedHasNoNul(s[PureStep(s, f).length..], f);
    }
  }

  /** Then a reader of the buffer, up to its terminator, sees what was spelled. */
  lemma ReadAsSpelled(s: string, f: Flags)
    requires NUL !in s && NoStrayAmpersand(s, f)
    ensures CString(DecodeInPlace(s, 0, "", f)) == Decode(s, f)
  {
    hide *;
    assert s[0..] == s;
    NothingStrayNothingLost(s, 0, "", f);
    InPlaceIsDecode(s, 0, "", f);
    DecodedHasNoNul(s, f);
  }

  lemma PureStepHasNoNul(t: string, f: Flags)
    requires t != [] && NUL !in t
    ensures NUL !in PureStep(t, f).text
  {
    hide EntityAt, Utf8Text, Positional;
    if Spelled(t).Reference? {
      if EntityAt(t, 0).Reference? {
        var k := EntityIsSpelled(t, 0);
      } else {
        var hex := !NumberAt(t, false).Reference?;
        CodeHasNoNul(Positional(Digits(t[|Prefix(hex)|..], Base(hex)), Base(hex)));
      }
    }
  }

  lemma CodeHasNoNul(n: nat)
    requires 0 < n < 0x200000
    ensures NUL !in Utf8Text(n)
  {
    BitsOf(n);
    BytesAreNotZero(n as bv32);
    TextOfBytes(n);
    hide *;
  }

  lemma BitsOf(n: nat)
    requires 0 < n < 0x200000
    ensures 0 < n as bv32
  {
  }

  lemma TextOfBytes(n: nat)
    requires n < 0x200000
    requires var bytes := XmlUtf8.Encode(n as bv32); forall i :: 0 <= i < |bytes| ==> bytes[i] & 0xFF != 0
    ensures NUL !in Utf8Text(n)
  {
    hide XmlUtf8.Encode;
    var bytes := XmlUtf8.Encode(n as bv32);
    forall i | 0 <= i < |bytes| ensures Utf8Text(n)[i] != NUL {
      NotNul(bytes[i]);
    }
  }

  lemma NotNul(b: bv32)
    requires b & 0xFF != 0
    ensures (b & 0xFF) as int as char != NUL
  {
  }

  lemma BytesAreNotZero(x: bv32)
    requires 0 < x
    ensures forall i :: 0 <= i < |XmlUtf8.Encode(x)| ==> XmlUtf8.Encode(x)[i] & 0xFF != 0
  {
  }

  // ---------- texts that are not decoded ----------

  /** A stray ampersand behind a reference is replaced by a left-over byte. */
  lemma StaleByteExample()
    ensures DecodeInPlace("&lt;&b", 0, "", TEXT_ELEMENT) == "<lb"
    ensures Decode("&lt;&b", TEXT_ELEMENT) == "<&b"
  {
    StaleByteSteps();
    hide StepAt, PureStep;
    var s := "&lt;&b";
    assert s[0..] == s && s[4..] == "&b" && s[5..] == "b" && s[6..] == "" && "&b"[1..] == "b" && "b"[1..] == "";
    assert DecodeInPlace(s, 5, "<l", TEXT_ELEMENT) == DecodeInPlace(s, 6, "<lb", TEXT_ELEMENT);
    assert DecodeInPlace(s, 4, "<", TEXT_ELEMENT) == DecodeInPlace(s, 5, "<l", TEXT_ELEMENT);
    assert Decode("b", TEXT_ELEMENT) == "b";
    assert Decode("&b", TEXT_ELEMENT) == "&b";
  }

  lemma StaleByteSteps()
    ensures StepAt("&lt;&b", TEXT_ELEMENT) == Consume(4, "<") == PureStep("&lt;&b", TEXT_ELEMENT)
    ensures StepAt("&b", TEXT_ELEMENT) == StrayAmpersand && PureStep("&b", TEXT_ELEMENT) == Consume(1, "&")
    ensures StepAt("b", TEXT_ELEMENT) == Consume(1, "b") == PureStep("b", TEXT_ELEMENT)
  {
    hide EntityAt, NumberAt, CharacterRef;
    EntityIsFound(3, "&b");
    NotSpelled();
    assert "&" + ENTITIES[3].pattern + ";" + "&b" == "&lt;&b";
  }

  lemma NotSpelled()
    ensures EntityAt("&b", 0) == NoReference && NumberAt("&b", false) == NumberAt("&b", true) == NoReference
  {
    hide Positional, Utf8Text, Digits;
    assert EntityAt("&b", 3) == NoReference;
    assert EntityAt("&b", 1) == NoReference;
  }

  /** A mark without digits becomes NUL, and one with another mark in its number is read from the last. */
  lemma SwallowedExamples()
    ensures DecodeInPlace("&#;", 0, "", TEXT_ELEMENT) == [NUL] && Swallowed("&#;", TEXT_ELEMENT)
    ensures DecodeInPlace("&#1#65;", 0, "", TEXT_ELEMENT) == "A" && Swallowed("&#1#65;", TEXT_ELEMENT)
    ensures DecodeInPlace("&#", 0, "", TEXT_ELEMENT) == "#" && Swallowed("&#", TEXT_ELEMENT)
  {
    NoDigits();
    TwoMarks();
    NothingBehind();
    hide CharacterRef, Spelled;
    StepIs("&#;", TEXT_ELEMENT);
    StepIs("&#1#65;", TEXT_ELEMENT);
    StepIs("&#", TEXT_ELEMENT);
    SwallowedWhole("&#;", TEXT_ELEMENT);
    SwallowedWhole("&#1#65;", TEXT_ELEMENT);
    hide StepAt;
    assert "&#"[0..] == "&#" && "&#"[1..] == "#" && "&#"[2..] == "";
    assert StepAt("#", TEXT_ELEMENT) == Consume(1, "#") by {
      Plain('#', TEXT_ELEMENT);
    }
    assert DecodeInPlace("&#", 1, "", TEXT_ELEMENT) == DecodeInPlace("&#", 2, "#", TEXT_ELEMENT);
  }

  lemma SwallowedWhole(t: string, f: Flags)
    requires t != [] && StepAt(t, f).Consume? && StepAt(t, f).length == |t|
    ensures DecodeInPlace(t, 0, "", f) == StepAt(t, f).text
  {
    hide StepAt;
    assert t[0..] == t;
    assert "" + StepAt(t, f).text == StepAt(t, f).text;
  }

  lemma Plain(c: char, f: Flags)
    requires c != CR && c != LF && c != '&'
    ensures StepAt([c], f) == Consume(1, [c])
  {
  }

  lemma NothingBehind()
    ensures Spelled("&#") == NoReference && CharacterRef("&#") == Reference(1, "")
  {
  }

  lemma NoDigits()
    ensures Spelled("&#;") == NoReference && CharacterRef("&#;") == Reference(3, [NUL])
  {
    TextOfNul();
    hide Utf8Text;
    assert "&#;"[2..] == ";";
    assert IndexOf("&#;", ';', 2) == 2;
  }

  lemma TwoMarksSpellNothing()
    ensures Spelled("&#1#65;") == NoReference
  {
    NoEntityAtMark("&#1#65;");
    hide Utf8Text, Positional, EntityAt;
    assert "&#1#65;"[2..] == "1#65;" && "1#65;"[1..] == "#65;";
    assert Digits("#65;", 10) == "";
    assert Digits("1#65;", 10) == "1";
  }

  lemma TwoMarks()
    ensures Spelled("&#1#65;") == NoReference && CharacterRef("&#1#65;") == Reference(7, "A")
  {
    TwoMarksSpellNothing();
    TextOfA();
    hide Utf8Text, Spelled;
    var t := "&#1#65;";
    assert IndexOf(t, ';', 4) == 6;
    assert IndexOf(t, ';', 2) == 6;
    assert ScanDigits(t, 4, '#', 10, 100) == Value(0);
    assert ScanDigits(t, 5, '#', 10, 10) == Value(60);
    assert ScanDigits(t, 6, '#', 10, 1) == Value(65);
  }

  lemma TextOfA()
    ensures Utf8Text(65) == "A"
  {
  }

  lemma TextOfNul()
    ensures Utf8Text(0) == [NUL]
  {
  }

  // ---------- what the printer wrote ----------

  lemma EscapedCharStep(c: char, restricted: bool, rest: string, f: Flags)
    requires c != CR && c != NUL && f.entities && (rest != [] ==> rest[0] != CR)
    ensures var t := EscapeChar(c, restricted) + rest;
            && PureStep(t, f) == Consume(|EscapeChar(c, restricted)|, [c])
            && (f.entities && t[0] == '&' ==> Spelled(t).Reference?)
  {
    hide EntityAt, NumberAt;
    if NeedsEntity(c, restricted) {
      var k := TableIndex(c);
      EntityIsFound(k, rest);
    } else {
      assert [c] + rest != [] && ([c] + rest)[0] == c;
      assert rest != [] ==> ([c] + rest)[1] == rest[0];
    }
  }

  /** Decoding what the printer wrote gives the text back, and there is no stray ampersand in it. */
  lemma {:induction false} DecodeEscape(s: string, restricted: bool, f: Flags)
    requires PlainText(s) && f.entities
    ensures Decode(Escape(s, restricted), f) == s && NoStrayAmpersand(Escape(s, restricted), f)
  {
    hide PureStep, Spelled, Escape, EscapeChar, Decode, NoStrayAmpersand;
    if s == [] {
      NothingEscaped(restricted, f);
    } else {
      var first, rest := EscapeChar(s[0], restricted), Escape(s[1..], restricted);
      assert s[0..] == s;
      EscapeSplit(s, 0, restricted);
      EscapeHasNoCR(s[1..], restricted);
      EscapedCharStep(s[0], restricted, rest, f);
      DecodeEscape(s[1..], restricted, f);
      DecodeOne(s[0], first, rest, f);
      assert [s[0]] + s[1..] == s;
    }
  }

  lemma NothingEscaped(restricted: bool, f: Flags)
    ensures Decode(Escape("", restricted), f) == "" && NoStrayAmpersand(Escape("", restricted), f)
  {
  }

  lemma DecodeOne(c: char, first: string, rest: string, f: Flags)
    requires first != [] && PureStep(first + rest, f) == Consume(|first|, [c])
    requires f.entities && (first + rest)[0] == '&' ==> Spelled(first + rest).Reference?
    ensures Decode(first + rest, f) == [c] + Decode(rest, f)
    ensures NoStrayAmpersand(first + rest, f) == NoStrayAmpersand(rest, f)
  {
    hide PureStep, Spelled;
    assert (first + rest)[|first|..] == rest;
  }

  /** `GetStr` undoes `PrintString`, in the buffer. */
  lemma GetStrUndoesPrintString(s: string, restricted: bool)
    requires PlainText(s)
    ensures DecodeInPlace(Escape(s, restricted), 0, "", TEXT_ELEMENT) == s
  {
    assert TEXT_ELEMENT.entities;
    hide *;
    var e := Escape(s, restricted);
    assert e[0..] == e;
    DecodeEscape(s, restricted, TEXT_ELEMENT);
    NothingStrayNothingLost(e, 0, "", TEXT_ELEMENT);
    InPlaceIsDecode(e, 0, "", TEXT_ELEMENT);
  }
}
