/** What tags and attributes mean, by the way they are written. */
module ConditionRules {
  import opened Conditions

  // ---------- words in any case ----------

  const LOWER := "abcdefghijklmnopqrstuvwxyz"
  const UPPER := "ABCDEFGHIJKLMNOPQRSTUVWXYZ"

  predicate SameLetter(c: char, d: char) {
    c == d || exists k :: 0 <= k < 26 && c == UPPER[k] && d == LOWER[k]
  }

  /** s spells the lower-case word, in whatever case. */
  predicate Spells(s: string, word: string) {
    |s| == |word| && forall i :: 0 <= i < |s| ==> SameLetter(s[i], word[i])
  }

  predicate NoUpper(word: string) {
    forall i :: 0 <= i < |word| ==> word[i] !in UPPER
  }

  predicate NoLower(word: string) {
    forall i :: 0 <= i < |word| ==> word[i] !in LOWER
  }

  function LowerOf(c: char): char {
    if 'A' <= c <= 'Z' then c + 32 as char else c
  }

  function UpperOf(c: char): char {
    if 'a' <= c <= 'z' then c - 32 as char else c
  }

  lemma AlphabetsAre(k: nat)
    requires k < 26
    ensures UPPER[k] == 'A' + k as char && LOWER[k] == 'a' + k as char
  {
  }

  lemma LettersAre(c: char)
    ensures c in UPPER <==> 'A' <= c <= 'Z'
    ensures c in LOWER <==> 'a' <= c <= 'z'
  {
    LetterIn(c, UPPER, 'A');
    LetterIn(c, LOWER, 'a');
    hide *;
  }

  lemma LetterIn(c: char, alphabet: string, first: char)
    requires (alphabet == UPPER && first == 'A') || (alphabet == LOWER && first == 'a')
    ensures c in alphabet <==> first as int <= c as int < first as int + 26
  {
    forall k: nat | k < 26 ensures alphabet[k] as int == first as int + k {
      AlphabetsAre(k);
    }
    var k := c as int - first as int;
    assert 0 <= k < 26 ==> alphabet[k] == c;
  }

  lemma PairsAre(c: char, d: char)
    ensures SameLetter(c, d) <==> c == d || ('A' <= c <= 'Z' && d as int == c as int + 32)
  {
    forall k: nat | k < 26 ensures UPPER[k] as int == 65 + k && LOWER[k] as int == 97 + k {
      AlphabetsAre(k);
    }
    if 'A' <= c <= 'Z' {
      var k := c as int - 65;
      assert UPPER[k] == c && LOWER[k] as int == c as int + 32;
    }
  }

  lemma SameLetterIs(c: char, d: char)
    ensures d !in UPPER ==> (SameLetter(c, d) <==> LowerOf(c) == d)
    ensures d !in UPPER ==> (SameLetter(c, d) <==> UpperOf(c) == UpperOf(d))
  {
    PairsAre(c, d);
    LettersAre(d);
    CodesAre(c);
    CodesAre(d);
    hide SameLetter, LowerOf, UpperOf;
  }

  lemma CodesAre(c: char)
    ensures LowerOf(c) as int == if 'A' <= c <= 'Z' then c as int + 32 else c as int
    ensures UpperOf(c) as int == if 'a' <= c <= 'z' then c as int - 32 else c as int
  {
  }

  lemma {:induction false} ToLowerAt(s: string)
    ensures |ToLower(s)| == |s| && forall i :: 0 <= i < |s| ==> ToLower(s)[i] == LowerOf(s[i])
  {
    if s != "" {
      ToLowerAt(s[1..]);
    }
  }

  lemma {:induction false} ToUpperAt(s: string)
    ensures |ToUpper(s)| == |s| && forall i :: 0 <= i < |s| ==> ToUpper(s)[i] == UpperOf(s[i])
  {
    if s != "" {
      ToUpperAt(s[1..]);
    }
  }

  lemma SpellsIsLower(s: string, word: string)
    requires NoUpper(word)
    ensures Spells(s, word) <==> ToLower(s) == word
  {
    hide SameLetter;
    ToLowerAt(s);
    if |s| == |word| {
      forall i | 0 <= i < |s| ensures SameLetter(s[i], word[i]) <==> ToLower(s)[i] == word[i] {
        SameLetterIs(s[i], word[i]);
      }
    }
  }

  lemma SpellsIsUpper(s: string, word: string)
    requires NoUpper(word)
    ensures Spells(s, word) <==> ToUpper(s) == ToUpper(word)
  {
    hide SameLetter;
    ToUpperAt(s);
    ToUpperAt(word);
    if |s| == |word| {
      forall i | 0 <= i < |s| ensures SameLetter(s[i], word[i]) <==> ToUpper(s)[i] == ToUpper(word)[i] {
        SameLetterIs(s[i], word[i]);
      }
    }
  }

  /** s spells one of the words. */
  predicate SpellsOne(s: string, words: seq<string>) {
    exists k :: 0 <= k < |words| && Spells(s, words[k])
  }

  // ---------- tags ----------

  lemma TagIs(tag: string)
    ensures SpellsOne(tag, ["condition", "update"]) <==> KindOf(tag) == ROOT
    ensures Spells(tag, "if") <==> KindOf(tag) == IF
    ensures Spells(tag, "nif") <==> KindOf(tag) == NIF
    ensures Spells(tag, "compare") <==> KindOf(tag) == COMPARE
    ensures SpellsOne(tag, HANDLED_TAGS) <==> KindOf(tag) == HANDLED
  {
    hide Spells, ToLower;
    WordsAreLower();
    hide NoUpper;
    SpellsIsLower(tag, "if");
    SpellsIsLower(tag, "nif");
    SpellsIsLower(tag, "compare");
    TagsAre(tag, ["condition", "update"]);
    TagsAre(tag, HANDLED_TAGS);
  }

  const HANDLED_TAGS := ["signature", "certificate", "time", "endorser", "receiver", "user", "var"]

  lemma WordsAreLower()
    ensures NoUpper("if") && NoUpper("nif") && NoUpper("compare")
    ensures forall k :: 0 <= k < 2 ==> NoUpper(["condition", "update"][k])
    ensures forall k :: 0 <= k < |HANDLED_TAGS| ==> NoUpper(HANDLED_TAGS[k])
  {
    var words := ["if", "nif", "compare", "condition", "update"] + HANDLED_TAGS;
    forall k, i | 0 <= k < |words| && 0 <= i < |words[k]| ensures words[k][i] !in UPPER {
      LettersAre(words[k][i]);
    }
    assert words[0] == "if" && words[1] == "nif" && words[2] == "compare" && words[3] == "condition" && words[4] == "update";
    assert forall k :: 0 <= k < |HANDLED_TAGS| ==> HANDLED_TAGS[k] == words[k + 5];
  }

  lemma TagsAre(tag: string, words: seq<string>)
    requires forall k :: 0 <= k < |words| ==> NoUpper(words[k])
    ensures SpellsOne(tag, words) <==> ToLower(tag) in words
  {
    hide Spells, ToLower, NoUpper;
    forall k | 0 <= k < |words| ensures Spells(tag, words[k]) <==> ToLower(tag) == words[k] {
      SpellsIsLower(tag, words[k]);
    }
  }

  // ---------- trees ----------

  /** No rule, an empty one, or "or". */
  predicate AnyChildWill(e: Element) {
    "eval-rule" !in e.attributes || e.attributes["eval-rule"] == "" || Spells(e.attributes["eval-rule"], "or")
  }

  lemma RuleIs(e: Element)
    ensures AnyChildWill(e) <==> !IsAnd(e)
  {
    LettersAre('o');
    LettersAre('r');
    SpellsIsLower(Attribute(e, "eval-rule"), "or");
    hide Spells, ToLower;
  }

  /** A condition, update or if holds if some child does, or under any other rule than "or" if all do. */
  lemma IfMeans(e: Element, data: Data, o: Outside)
    requires SpellsOne(e.name, ["condition", "update", "if"])
    ensures AnyChildWill(e) ==> (Evaluate(e, data, o) <==> exists i :: 0 <= i < |e.children| && Evaluate(e.children[i], data, o))
    ensures !AnyChildWill(e) ==> (Evaluate(e, data, o) <==> forall i :: 0 <= i < |e.children| ==> Evaluate(e.children[i], data, o))
  {
    var k :| 0 <= k < 3 && Spells(e.name, ["condition", "update", "if"][k]);
    assert k < 2 ==> Spells(e.name, ["condition", "update"][k]);
    TagIs(e.name);
    RuleIs(e);
    hide KindOf, IsAnd, AnyChildWill, Spells;
  }

  /** A nif is the negation of the if. */
  lemma NifNegates(e: Element, f: Element, data: Data, o: Outside)
    requires Spells(e.name, "nif") && Spells(f.name, "if") && f == e.(name := f.name)
    ensures Evaluate(e, data, o) <==> !Evaluate(f, data, o)
  {
    TagIs(e.name);
    TagIs(f.name);
    RuleIs(e);
    RuleIs(f);
    hide KindOf, IsAnd, Spells;
    assert e.children == f.children;
  }

  /** Tags with a handler are its business, and any tag that is none of these holds. */
  lemma OtherTags(e: Element, data: Data, o: Outside)
    ensures SpellsOne(e.name, HANDLED_TAGS) ==> (Evaluate(e, data, o) <==> o.other(e, data))
    ensures !SpellsOne(e.name, ["condition", "update", "if", "nif", "compare"] + HANDLED_TAGS) ==> Evaluate(e, data, o)
  {
    TagIs(e.name);
    var all := ["condition", "update", "if", "nif", "compare"] + HANDLED_TAGS;
    assert all[0] == "condition" && all[1] == "update" && all[2] == "if" && all[3] == "nif" && all[4] == "compare";
    assert forall k :: 0 <= k < |HANDLED_TAGS| ==> HANDLED_TAGS[k] == all[k + 5];
    hide KindOf, Spells;
  }

  // ---------- operands ----------

  const WHITE := " \t\n\r\U{B}\U{C}"

  predicate Blank(s: string) {
    forall i :: 0 <= i < |s| ==> s[i] in WHITE
  }

  /** v is the word with white space around it. */
  ghost predicate Surrounds(v: string, word: string) {
    && word != "" && word[0] !in WHITE && word[|word| - 1] !in WHITE
    && exists a, b :: Blank(a) && Blank(b) && v == a + word + b
  }

  /** An attribute written so stands for this value: a word for itself, a keyword for what the data say. */
  ghost predicate StandsFor(v: string, data: Data, value: string) {
    exists word :: Surrounds(v, word) && if word[0] == '$' then word in data && data[word] == value else value == word
  }

  lemma SpaceIs(c: char)
    ensures IsSpace(c) <==> c in WHITE
  {
  }

  lemma {:induction false} TrimLeftOf(a: string, s: string)
    requires Blank(a) && s != "" && s[0] !in WHITE
    ensures TrimLeft(a + s) == s
  {
    if a == "" {
      SpaceIs(s[0]);
      assert a + s == s;
    } else {
      SpaceIs(a[0]);
      assert (a + s)[0] == a[0] && (a + s)[1..] == a[1..] + s;
      TrimLeftOf(a[1..], s);
    }
  }

  lemma {:induction false} TrimRightOf(s: string, b: string)
    requires Blank(b) && s != "" && s[|s| - 1] !in WHITE
    ensures TrimRight(s + b) == s
  {
    if b == "" {
      SpaceIs(s[|s| - 1]);
      assert s + b == s;
    } else {
      var n := |b| - 1;
      SpaceIs(b[n]);
      assert (s + b)[|s + b| - 1] == b[n] && (s + b)[..|s + b| - 1] == s + b[..n];
      TrimRightOf(s, b[..n]);
    }
  }

  lemma TrimIs(v: string, word: string)
    requires Surrounds(v, word)
    ensures Trim(v) == word
  {
    var a, b :| Blank(a) && Blank(b) && v == a + word + b;
    assert v == a + (word + b);
    TrimLeftOf(a, word + b);
    TrimRightOf(word, b);
  }

  lemma {:induction false} TrimLeftLeaves(s: string) returns (a: string)
    ensures Blank(a) && s == a + TrimLeft(s)
    ensures TrimLeft(s) != "" ==> TrimLeft(s)[0] !in WHITE
  {
    hide Blank, IsSpace;
    BlankGrows("", ' ');
    if s != "" && IsSpace(s[0]) {
      var rest := TrimLeftLeaves(s[1..]);
      a := [s[0]] + rest;
      BlankBefore(s[0], rest);
      assert s == [s[0]] + s[1..];
    } else {
      a := "";
      if s != "" {
        SpaceIs(s[0]);
      }
    }
  }

  lemma {:induction false} TrimRightLeaves(s: string) returns (b: string)
    ensures Blank(b) && s == TrimRight(s) + b
    ensures TrimRight(s) != "" ==> TrimRight(s)[|TrimRight(s)| - 1] !in WHITE
  {
    hide Blank, IsSpace;
    BlankGrows("", ' ');
    if s != "" && IsSpace(s[|s| - 1]) {
      var n := |s| - 1;
      var rest := TrimRightLeaves(s[..n]);
      b := rest + [s[n]];
      BlankGrows(rest, s[n]);
      assert s == s[..n] + [s[n]];
    } else {
      b := "";
      if s != "" {
        SpaceIs(s[|s| - 1]);
      }
    }
  }

  lemma BlankBefore(c: char, b: string)
    requires Blank(b) && IsSpace(c)
    ensures Blank([c] + b)
  {
    SpaceIs(c);
  }

  lemma BlankGrows(b: string, c: char)
    requires Blank(b) || b == ""
    ensures Blank(b) && (IsSpace(c) ==> Blank(b + [c]))
  {
    SpaceIs(c);
  }

  lemma TrimSurrounds(v: string)
    requires Trim(v) != ""
    ensures Surrounds(v, Trim(v))
  {
    hide Blank;
    var a := TrimLeftLeaves(v);
    var b := TrimRightLeaves(TrimLeft(v));
    assert v == a + Trim(v) + b;
    assert Trim(v)[0] == TrimLeft(v)[0];
  }

  lemma TrimOnce(v: string)
    requires Trim(v) != ""
    ensures Trim(Trim(v)) == Trim(v)
  {
    TrimSurrounds(v);
    hide Trim;
    var w := Trim(v);
    assert Blank("") && w == "" + w + "";
    assert Surrounds(w, w);
    TrimIs(w, w);
  }

  lemma StandsForIs(v: string, data: Data, value: string)
    ensures StandsFor(v, data, value) <==> Trim(v) != "" && EvalOpt(data, Trim(v)) == Some(value)
  {
    hide Trim, Surrounds;
    if Trim(v) != "" {
      TrimOnce(v);
      TrimSurrounds(v);
    }
    forall word | Surrounds(v, word) ensures Trim(v) == word && word != "" {
      TrimIs(v, word);
      SurroundsSome(v, word);
    }
  }

  lemma SurroundsSome(v: string, word: string)
    requires Surrounds(v, word)
    ensures word != ""
  {
  }

  // ---------- comparing ----------

  ghost predicate Given(e: Element, name: string, data: Data, value: string) {
    name in e.attributes && StandsFor(e.attributes[name], data, value)
  }

  /** What the comparison is with, in an absolute one. */
  ghost predicate AbsoluteIs(e: Element, word: string) {
    var v := if "abs" in e.attributes then e.attributes["abs"] else "";
    if Blank(v) then word == "" else Surrounds(v, word)
  }

  ghost predicate OfType(e: Element, words: seq<string>) {
    SpellsOne(if "type" in e.attributes then e.attributes["type"] else "", words)
  }

  const EQ_TYPES := ["eq", "=", "=="]
  const NE_TYPES := ["ne", "!="]
  const GE_TYPES := ["ge", ">=", "=>"]
  const LE_TYPES := ["le", "<=", "=<"]
  const GT_TYPES := ["gt", ">"]
  const LT_TYPES := ["lt", "<"]

  /** A comparison of two operands that stand for something. */
  lemma CompareMeans(e: Element, data: Data, o: Outside, src: string, ref: string, abs: string)
    requires Spells(e.name, "compare") && Given(e, "src", data, src) && Given(e, "ref", data, ref) && AbsoluteIs(e, abs)
    ensures var (holds, m, n, d) := (Evaluate(e, data, o), o.num(src), o.num(ref), o.num(abs));
            && (OfType(e, EQ_TYPES) ==> (holds <==> src == ref)) && (OfType(e, NE_TYPES) ==> (holds <==> src != ref))
            && (OfType(e, GE_TYPES) ==> (holds <==> m >= n)) && (OfType(e, LE_TYPES) ==> (holds <==> m <= n))
            && (OfType(e, GT_TYPES) ==> (holds <==> m > n)) && (OfType(e, LT_TYPES) ==> (holds <==> m < n))
            && (OfType(e, ["age"]) ==> (holds <==> m - n >= d || n - m >= d))
            && (OfType(e, ["ale"]) ==> (holds <==> m - n <= d && n - m <= d))
            && (OfType(e, ["agt"]) ==> (holds <==> m - n > d || n - m > d))
            && (OfType(e, ["alt"]) ==> (holds <==> m - n < d && n - m < d))
            && (!OfType(e, ALL_TYPES) ==> !holds)
  {
    hide *;
    HoldsAs(e, data, o, src, ref, abs);
    TypeIs(Attribute(e, "type"));
    OfTypeIs(e);
    HoldsMeans(GetCompareType(Attribute(e, "type")), src, ref, abs, o.num);
  }

  lemma HoldsAs(e: Element, data: Data, o: Outside, src: string, ref: string, abs: string)
    requires Spells(e.name, "compare") && Given(e, "src", data, src) && Given(e, "ref", data, ref) && AbsoluteIs(e, abs)
    ensures Evaluate(e, data, o) == Holds(GetCompareType(Attribute(e, "type")), src, ref, abs, o.num)
  {
    TagIs(e.name);
    StandsForIs(Attribute(e, "src"), data, src);
    StandsForIs(Attribute(e, "ref"), data, ref);
    AbsoluteIsTrimmed(e, abs);
    hide StandsFor, AbsoluteIs, Spells, KindOf, GetCompareType, Trim, EvalOpt, Holds;
  }

  lemma OfTypeIs(e: Element)
    ensures forall words :: OfType(e, words) <==> SpellsOne(Attribute(e, "type"), words)
  {
    hide SpellsOne;
  }

  lemma HoldsMeans(t: CompareType, src: string, ref: string, abs: string, num: string -> int)
    ensures var (holds, m, n, d) := (Holds(t, src, ref, abs, num), num(src), num(ref), num(abs));
            && (t == EQ ==> (holds <==> src == ref)) && (t == NE ==> (holds <==> src != ref))
            && (t == GE ==> (holds <==> m >= n)) && (t == LE ==> (holds <==> m <= n))
            && (t == GT ==> (holds <==> m > n)) && (t == LT ==> (holds <==> m < n))
            && (t == AGE ==> (holds <==> m - n >= d || n - m >= d)) && (t == ALE ==> (holds <==> m - n <= d && n - m <= d))
            && (t == AGT ==> (holds <==> m - n > d || n - m > d)) && (t == ALT ==> (holds <==> m - n < d && n - m < d))
            && (t == UNKNOWN ==> !holds)
  {
  }

  const ALL_TYPES := EQ_TYPES + NE_TYPES + GE_TYPES + LE_TYPES + GT_TYPES + LT_TYPES + ["age", "ale", "agt", "alt"]

  lemma AbsoluteIsTrimmed(e: Element, word: string)
    requires AbsoluteIs(e, word)
    ensures Trim(Attribute(e, "abs")) == word
  {
    var v := Attribute(e, "abs");
    if Blank(v) {
      BlankIsEmpty(v);
    } else {
      TrimIs(v, word);
    }
  }

  lemma {:induction false} BlankIsEmpty(s: string)
    requires Blank(s)
    ensures Trim(s) == ""
  {
    if s != "" {
      SpaceIs(s[0]);
      BlankIsEmpty(s[1..]);
    }
  }

  lemma TypeIs(written: string)
    ensures SpellsOne(written, EQ_TYPES) <==> GetCompareType(written) == EQ
    ensures SpellsOne(written, NE_TYPES) <==> GetCompareType(written) == NE
    ensures SpellsOne(written, GE_TYPES) <==> GetCompareType(written) == GE
    ensures SpellsOne(written, LE_TYPES) <==> GetCompareType(written) == LE
    ensures SpellsOne(written, GT_TYPES) <==> GetCompareType(written) == GT
    ensures SpellsOne(written, LT_TYPES) <==> GetCompareType(written) == LT
    ensures SpellsOne(written, ["age"]) <==> GetCompareType(written) == AGE
    ensures SpellsOne(written, ["ale"]) <==> GetCompareType(written) == ALE
    ensures SpellsOne(written, ["agt"]) <==> GetCompareType(written) == AGT
    ensures SpellsOne(written, ["alt"]) <==> GetCompareType(written) == ALT
    ensures SpellsOne(written, ALL_TYPES) <==> GetCompareType(written) != UNKNOWN
  {
    hide *;
    PlainTypes(written);
    AbsoluteTypes(written);
    AllTypesAre(written);
    TypeOfUpper(written);
  }

  lemma PlainTypes(written: string)
    ensures SpellsOne(written, EQ_TYPES) <==> ToUpper(written) in ["EQ", "=", "=="]
    ensures SpellsOne(written, NE_TYPES) <==> ToUpper(written) in ["NE", "!="]
    ensures SpellsOne(written, GE_TYPES) <==> ToUpper(written) in ["GE", ">=", "=>"]
    ensures SpellsOne(written, LE_TYPES) <==> ToUpper(written) in ["LE", "<=", "=<"]
    ensures SpellsOne(written, GT_TYPES) <==> ToUpper(written) in ["GT", ">"]
    ensures SpellsOne(written, LT_TYPES) <==> ToUpper(written) in ["LT", "<"]
  {
    hide SpellsOne, ToUpper;
    TypesAre(written, EQ_TYPES, ["EQ", "=", "=="]);
    TypesAre(written, NE_TYPES, ["NE", "!="]);
    TypesAre(written, GE_TYPES, ["GE", ">=", "=>"]);
    TypesAre(written, LE_TYPES, ["LE", "<=", "=<"]);
    TypesAre(written, GT_TYPES, ["GT", ">"]);
    TypesAre(written, LT_TYPES, ["LT", "<"]);
  }

  lemma AbsoluteTypes(written: string)
    ensures SpellsOne(written, ["age"]) <==> ToUpper(written) == "AGE"
    ensures SpellsOne(written, ["ale"]) <==> ToUpper(written) == "ALE"
    ensures SpellsOne(written, ["agt"]) <==> ToUpper(written) == "AGT"
    ensures SpellsOne(written, ["alt"]) <==> ToUpper(written) == "ALT"
  {
    hide SpellsOne, ToUpper;
    TypesAre(written, ["age"], ["AGE"]);
    TypesAre(written, ["ale"], ["ALE"]);
    TypesAre(written, ["agt"], ["AGT"]);
    TypesAre(written, ["alt"], ["ALT"]);
  }

  lemma TypeOfUpper(written: string)
    ensures var (t, u) := (GetCompareType(written), ToUpper(written));
            && (u in ["EQ", "=", "=="] <==> t == EQ) && (u in ["NE", "!="] <==> t == NE)
            && (u in ["GE", ">=", "=>"] <==> t == GE) && (u in ["LE", "<=", "=<"] <==> t == LE)
            && (u in ["GT", ">"] <==> t == GT) && (u in ["LT", "<"] <==> t == LT)
            && (u == "AGE" <==> t == AGE) && (u == "ALE" <==> t == ALE) && (u == "AGT" <==> t == AGT) && (u == "ALT" <==> t == ALT)
  {
    hide ToUpper;
  }

  function UpperWord(word: string): (s: string)
    ensures |s| == |word| && forall i :: 0 <= i < |s| ==> s[i] == UpperOf(word[i])
  {
    seq(|word|, i requires 0 <= i < |word| => UpperOf(word[i]))
  }

  lemma TypesAre(written: string, words: seq<string>, uppers: seq<string>)
    requires |words| == |uppers|
    requires forall k, i :: 0 <= k < |words| && 0 <= i < |words[k]| ==> !('A' <= words[k][i] <= 'Z')
    requires forall k :: 0 <= k < |words| ==> UpperWord(words[k]) == uppers[k]
    ensures SpellsOne(written, words) <==> ToUpper(written) in uppers
  {
    hide Spells, ToUpper;
    forall k | 0 <= k < |words| ensures Spells(written, words[k]) <==> ToUpper(written) == uppers[k] {
      forall i | 0 <= i < |words[k]| ensures words[k][i] !in UPPER {
        LettersAre(words[k][i]);
      }
      SpellsIsUpper(written, words[k]);
      ToUpperAt(words[k]);
      assert ToUpper(words[k]) == uppers[k];
    }
  }

  lemma AllTypesAre(written: string)
    ensures SpellsOne(written, ALL_TYPES) <==>
      || SpellsOne(written, EQ_TYPES) || SpellsOne(written, NE_TYPES) || SpellsOne(written, GE_TYPES)
      || SpellsOne(written, LE_TYPES) || SpellsOne(written, GT_TYPES) || SpellsOne(written, LT_TYPES)
      || SpellsOne(written, ["age"]) || SpellsOne(written, ["ale"]) || SpellsOne(written, ["agt"]) || SpellsOne(written, ["alt"])
  {
    hide Spells;
    Joined(written, EQ_TYPES, NE_TYPES);
    Joined(written, EQ_TYPES + NE_TYPES, GE_TYPES);
    Joined(written, EQ_TYPES + NE_TYPES + GE_TYPES, LE_TYPES);
    Joined(written, EQ_TYPES + NE_TYPES + GE_TYPES + LE_TYPES, GT_TYPES);
    Joined(written, EQ_TYPES + NE_TYPES + GE_TYPES + LE_TYPES + GT_TYPES, LT_TYPES);
    Joined(written, EQ_TYPES + NE_TYPES + GE_TYPES + LE_TYPES + GT_TYPES + LT_TYPES, ["age", "ale", "agt", "alt"]);
    Joined(written, ["age"], ["ale"]);
    Joined(written, ["age", "ale"], ["agt"]);
    Joined(written, ["age", "ale", "agt"], ["alt"]);
    hide SpellsOne;
    assert ["age"] + ["ale"] == ["age", "ale"] && ["age", "ale"] + ["agt"] == ["age", "ale", "agt"];
    assert ["age", "ale", "agt"] + ["alt"] == ["age", "ale", "agt", "alt"];
  }

  lemma Joined(written: string, a: seq<string>, b: seq<string>)
    ensures SpellsOne(written, a + b) <==> SpellsOne(written, a) || SpellsOne(written, b)
  {
    hide Spells;
    forall k | 0 <= k < |b| && Spells(written, b[k]) ensures SpellsOne(written, a + b) {
      assert (a + b)[|a| + k] == b[k];
    }
    forall k | 0 <= k < |a| && Spells(written, a[k]) ensures SpellsOne(written, a + b) {
      assert (a + b)[k] == a[k];
    }
  }

  /** An operand that is missing or blank, or a keyword that the data do not have: nothing holds. */
  lemma NothingToCompare(e: Element, data: Data, o: Outside)
    requires Spells(e.name, "compare")
    requires (forall v :: !Given(e, "src", data, v)) || (forall v :: !Given(e, "ref", data, v))
    ensures !Evaluate(e, data, o)
  {
    TagIs(e.name);
    if forall v :: !Given(e, "src", data, v) {
      NotGiven(e, "src", data);
    } else {
      NotGiven(e, "ref", data);
    }
    hide Given, Spells, KindOf, GetCompareType, Trim, EvalOpt;
  }

  lemma NotGiven(e: Element, name: string, data: Data)
    ensures var v := Attribute(e, name);
            Trim(v) != "" && EvalOpt(data, Trim(v)).Some? ==> Given(e, name, data, EvalOpt(data, Trim(v)).value)
  {
    hide StandsFor, EvalOpt;
    var v := Attribute(e, name);
    if Trim(v) != "" && EvalOpt(data, Trim(v)).Some? {
      StandsForIs(v, data, EvalOpt(data, Trim(v)).value);
    }
  }

  // ---------- which types are which others' negation ----------

  ghost predicate SameOperands(e: Element, f: Element, data: Data, src: string, ref: string, abs: string) {
    && Spells(e.name, "compare") && Given(e, "src", data, src) && Given(e, "ref", data, ref) && AbsoluteIs(e, abs)
    && Spells(f.name, "compare") && Given(f, "src", data, src) && Given(f, "ref", data, ref) && AbsoluteIs(f, abs)
  }

  lemma Opposites(e: Element, f: Element, data: Data, o: Outside, src: string, ref: string, abs: string)
    requires SameOperands(e, f, data, src, ref, abs)
    requires || (OfType(e, EQ_TYPES) && OfType(f, NE_TYPES)) || (OfType(e, GE_TYPES) && OfType(f, LT_TYPES))
             || (OfType(e, LE_TYPES) && OfType(f, GT_TYPES)) || (OfType(e, ["age"]) && OfType(f, ["alt"]))
             || (OfType(e, ["ale"]) && OfType(f, ["agt"]))
    ensures Evaluate(e, data, o) <==> !Evaluate(f, data, o)
  {
    CompareMeans(e, data, o, src, ref, abs);
    CompareMeans(f, data, o, src, ref, abs);
    hide Evaluate, OfType, Given, AbsoluteIs, Spells;
  }

  /** With the operands exchanged, "gt" is "lt". */
  lemma Exchanged(e: Element, f: Element, data: Data, o: Outside, src: string, ref: string, abs: string, abs': string)
    requires Spells(e.name, "compare") && Given(e, "src", data, src) && Given(e, "ref", data, ref) && AbsoluteIs(e, abs)
    requires Spells(f.name, "compare") && Given(f, "src", data, ref) && Given(f, "ref", data, src) && AbsoluteIs(f, abs')
    requires (OfType(e, GT_TYPES) && OfType(f, LT_TYPES)) || (OfType(e, GE_TYPES) && OfType(f, LE_TYPES))
    ensures Evaluate(e, data, o) <==> Evaluate(f, data, o)
  {
    CompareMeans(e, data, o, src, ref, abs);
    CompareMeans(f, data, o, ref, src, abs');
    hide Evaluate, OfType, Given, AbsoluteIs, Spells;
  }

  // ---------- keywords ----------

  /** The attributes of a tag, taken as it is written, that can hold a keyword. */
  predicate Watches(tag: string, name: string) {
    || (tag == "compare" && (name == "src" || name == "ref"))
    || (tag == "age" && (name == "after" || name == "before"))
    || (tag == "var" && (name == "id" || name == "name"))
    || (tag != "compare" && tag != "age" && tag != "var" && name == "value")
  }

  /** d is e or an element below it. */
  ghost predicate Under(e: Element, d: Element) {
    d == e || exists i :: 0 <= i < |e.children| && Under(e.children[i], d)
  }

  ghost predicate HoldsKeyword(d: Element, k: string) {
    "$" <= k && exists name :: Watches(d.name, name) && name in d.attributes && d.attributes[name] == k
  }

  lemma OwnKeywordsAre(e: Element, k: string)
    ensures k in OwnKeywords(e) <==> HoldsKeyword(e, k)
  {
    hide Pushed;
    forall name ensures k in Pushed(e, name) <==> "$" <= k && name in e.attributes && e.attributes[name] == k {
      PushedIs(e, name, k);
    }
    assert k in OwnKeywords(e) <==> exists name :: Watches(e.name, name) && k in Pushed(e, name) by {
      OwnIs(e, k);
    }
    hide OwnKeywords, Watches;
  }

  lemma PushedIs(e: Element, name: string, k: string)
    ensures k in Pushed(e, name) <==> "$" <= k && name in e.attributes && e.attributes[name] == k
  {
  }

  lemma OwnIs(e: Element, k: string)
    ensures k in OwnKeywords(e) <==> exists name :: Watches(e.name, name) && k in Pushed(e, name)
  {
    hide Pushed;
    if e.name == "compare" {
      assert Watches(e.name, "src") && Watches(e.name, "ref");
    } else if e.name == "age" {
      assert Watches(e.name, "after") && Watches(e.name, "before");
    } else if e.name == "var" {
      assert Watches(e.name, "id") && Watches(e.name, "name");
    } else {
      assert Watches(e.name, "value");
    }
  }

  /** The keywords collected are those values of watched attributes, at any depth, that start with a dollar sign. */
  lemma {:induction false} KeywordsAre(e: Element, k: string)
    ensures k in Keywords(e) <==> exists d :: Under(e, d) && HoldsKeyword(d, k)
    decreases e, 1
  {
    hide OwnKeywords, HoldsKeyword;
    OwnKeywordsAre(e, k);
    assert Under(e, e);
    KeywordsOfAllAre(e.children, k);
    if i :| 0 <= i < |e.children| && k in Keywords(e.children[i]) {
      KeywordsAre(e.children[i], k);
      var d :| Under(e.children[i], d) && HoldsKeyword(d, k);
      assert Under(e, d);
    }
    if d :| Under(e, d) && HoldsKeyword(d, k) {
      if d != e {
        var i :| 0 <= i < |e.children| && Under(e.children[i], d);
        KeywordsAre(e.children[i], k);
      }
    }
  }

  lemma {:induction false} KeywordsOfAllAre(es: seq<Element>, k: string)
    ensures k in KeywordsOfAll(es) <==> exists i :: 0 <= i < |es| && k in Keywords(es[i])
  {
    hide Keywords;
    if es != [] {
      KeywordsOfAllAre(es[1..], k);
      if i :| 0 <= i < |es[1..]| && k in Keywords(es[1..][i]) {
        assert k in Keywords(es[i + 1]);
      }
      if i :| 0 <= i < |es| && k in Keywords(es[i]) {
        assert i > 0 ==> es[1..][i - 1] == es[i];
      }
    }
  }
}
