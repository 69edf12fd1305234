/** When digests of keyword values tell data apart, and where they do not. */
module ConditionLimits {
  import opened Conditions
  import opened ConditionCache

  /** All keywords are there, with values as long in b as in a. */
  predicate SameWidths(keywords: seq<string>, a: Data, b: Data) {
    forall i :: 0 <= i < |keywords| ==>
      keywords[i] in a && keywords[i] in b && |a[keywords[i]]| == |b[keywords[i]]|
  }

  lemma Split(a: string, b: string, c: string, d: string)
    requires |a| == |c| && a + b == c + d
    ensures a == c && b == d
  {
    assert a == (a + b)[..|a|] && b == (a + b)[|a|..] && c == (c + d)[..|c|] && d == (c + d)[|c|..];
  }

  lemma {:induction false} ValuesSeparate(keywords: seq<string>, a: Data, b: Data)
    requires SameWidths(keywords, a, b) && Values(keywords, a) == Values(keywords, b)
    ensures Agree(a, b, keywords)
  {
    if keywords != [] {
      var rest := keywords[1..];
      Split(ValueOr(a, keywords[0]), Values(rest, a), ValueOr(b, keywords[0]), Values(rest, b));
      assert forall i :: 0 <= i < |rest| ==> rest[i] == keywords[i + 1];
      ValuesSeparate(rest, a, b);
      forall i | 0 <= i < |keywords| ensures Get(a, keywords[i]) == Get(b, keywords[i]) {
        if i > 0 {
          assert keywords[i] == rest[i - 1];
        }
      }
    }
  }

  /** A digest without collisions separates data whose keyword values have fixed widths. */
  lemma FixedWidthsSeparate(keywords: seq<string>, a: Data, b: Data, o: Outside)
    requires SameWidths(keywords, a, b)
    requires o.hash(Values(keywords, a)) == o.hash(Values(keywords, b)) ==> Values(keywords, a) == Values(keywords, b)
    ensures Separates(keywords, a, b, o)
  {
    if Digest(keywords, a, o) == Digest(keywords, b, o) {
      ValuesSeparate(keywords, a, b);
    }
  }

  /** A single keyword that is there has a width of its own. */
  lemma OneKeywordSeparates(keyword: string, a: Data, b: Data, o: Outside)
    requires keyword in a && keyword in b
    requires o.hash(a[keyword]) == o.hash(b[keyword]) ==> a[keyword] == b[keyword]
    ensures Separates([keyword], a, b, o)
  {
    OneValue(keyword, a);
    OneValue(keyword, b);
    hide Values;
  }

  lemma OneValue(keyword: string, a: Data)
    requires keyword in a
    ensures Values([keyword], a) == a[keyword]
  {
    assert [keyword][1..] == [];
    assert Values([keyword], a) == ValueOr(a, keyword) + Values([], a);
  }

  // ---------- data the digest cannot tell apart, whatever the hash ----------

  lemma KindsAre()
    ensures KindOf("condition") == ROOT
  {
    assert ToLower("condition") == "condition";
  }

  lemma CompareTags()
    ensures KindOf("compare") == COMPARE && KindOf("Compare") == COMPARE
  {
    assert ToLower("compare") == "compare" && ToLower("Compare") == "compare";
  }

  lemma TypesAre()
    ensures GetCompareType("EQ") == EQ && GetCompareType("NE") == NE
  {
    assert ToUpper("EQ") == "EQ" && ToUpper("NE") == "NE";
  }

  /** A keyword as it is meant to be written. */
  predicate IsKeyword(k: string) {
    k != "" && k[0] == '$' && !IsSpace(k[|k| - 1])
  }

  lemma KeywordIsTrimmed(k: string)
    requires IsKeyword(k)
    ensures Trim(k) == k
  {
  }

  function CompareNode(name: string, src: string, ref: string, kind: string): Element {
    Element(name, map["src" := src, "ref" := ref, "type" := kind], [])
  }

  function Condition(compare: Element): Element {
    Element("condition", map["id" := "c"], [compare])
  }

  lemma ConditionIs(compare: Element, data: Data, o: Outside)
    ensures Attribute(Condition(compare), "id") == "c"
    ensures Evaluate(Condition(compare), data, o) == Evaluate(compare, data, o)
    ensures Keywords(Condition(compare)) == Keywords(compare)
  {
    var e := Condition(compare);
    KindsAre();
    hide KindOf, Compare, ToLower;
    assert e.children == [compare] && e.children[0] == compare;
    assert KeywordsOfAll([compare]) == Keywords(compare) + KeywordsOfAll([]);
  }

  /** Evaluated on a and then on b, such a condition gives the old answer. */
  lemma Stale(e: Element, a: Data, b: Data, o: Outside)
    requires Attribute(e, "id") != "" && Values(Keywords(e), a) == Values(Keywords(e), b)
    requires Evaluate(e, a, o) != Evaluate(e, b, o)
    ensures AnswerAt([Call(e, a), Call(e, b)], 1, o) != Evaluate(e, b, o)
  {
    hide Evaluate, Keywords, Values, Attribute;
    AnswerIsFresh([Call(e, a), Call(e, b)], 0, 1, o);
  }

  lemma EqualIs(name: string, x: string, y: string, data: Data, o: Outside)
    requires KindOf(name) == COMPARE && Trim(x) != "" && Trim(y) != "" && Trim(x)[0] == '$' && Trim(y)[0] == '$'
    requires Trim(Trim(x)) == Trim(x) && Trim(Trim(y)) == Trim(y)
    ensures Evaluate(CompareNode(name, x, y, "EQ"), data, o)
        == (Trim(x) in data && Trim(y) in data && data[Trim(x)] == data[Trim(y)])
  {
    hide KindOf, Trim, GetCompareType;
    TypesAre();
  }

  /** Values are joined without a separator: ("1", "1") and ("11", "") look alike. */
  lemma JoinedValuesCollide(x: string, y: string, o: Outside)
    requires IsKeyword(x) && IsKeyword(y) && x != y
    ensures var e := Condition(CompareNode("compare", x, y, "EQ"));
            var a, b := map[x := "1", y := "1"], map[x := "11", y := ""];
            Evaluate(e, a, o) && !Evaluate(e, b, o) && AnswerAt([Call(e, a), Call(e, b)], 1, o)
  {
    var node := CompareNode("compare", x, y, "EQ");
    var a, b := map[x := "1", y := "1"], map[x := "11", y := ""];
    assert Keywords(node) == [x, y];
    assert Values([x, y], a) == "11" && Values([x, y], b) == "11" by {
      TwoValues(x, y, a);
      TwoValues(x, y, b);
    }
    hide Evaluate, Keywords, Trim, Values, AnswerAt, Condition, CompareNode;
    KeywordIsTrimmed(x);
    KeywordIsTrimmed(y);
    CompareTags();
    ConditionIs(node, a, o);
    ConditionIs(node, b, o);
    EqualIs("compare", x, y, a, o);
    EqualIs("compare", x, y, b, o);
    Stale(Condition(node), a, b, o);
  }

  lemma TwoValues(x: string, y: string, data: Data)
    requires x in data && y in data
    ensures Values([x, y], data) == data[x] + data[y]
  {
    assert [x, y][1..] == [y] && [y][1..] == [];
    assert Values([y], data) == data[y] + Values([], data);
  }

  lemma DiffersIs(x: string, y: string, data: Data, o: Outside)
    requires Trim(x) == x && Trim(y) == y && x != "" && y != "" && x[0] == '$' && y[0] != '$'
    ensures Evaluate(CompareNode("compare", x, y, "NE"), data, o) == (x in data && data[x] != y)
  {
    hide KindOf, Trim, GetCompareType;
    TypesAre();
    CompareTags();
  }

  /** A missing keyword counts as an empty one, but does not compare as one. */
  lemma MissingIsNotEmpty(x: string, o: Outside)
    requires IsKeyword(x)
    ensures var e := Condition(CompareNode("compare", x, "a", "NE"));
            var a, b := map[], map[x := ""];
            !Evaluate(e, a, o) && Evaluate(e, b, o) && !AnswerAt([Call(e, a), Call(e, b)], 1, o)
  {
    var node := CompareNode("compare", x, "a", "NE");
    var a, b: Data := map[], map[x := ""];
    assert Keywords(node) == [x];
    assert Values([x], a) == "" && Values([x], b) == "" by {
      assert [x][1..] == [];
    }
    assert Trim("a") == "a";
    hide Evaluate, Keywords, Trim, Values, AnswerAt, Condition, CompareNode;
    KeywordIsTrimmed(x);
    DiffersIs(x, "a", a, o);
    DiffersIs(x, "a", b, o);
    ConditionIs(node, a, o);
    ConditionIs(node, b, o);
    Stale(Condition(node), a, b, o);
  }

  /** A tag or an attribute written otherwise than the keyword search expects is not watched at
      all: not <Compare>, nor src=" $x". */
  lemma UnwatchedIsStale(node: Element, a: Data, b: Data, o: Outside)
    requires OwnKeywords(node) == [] && node.children == [] && Evaluate(node, a, o) != Evaluate(node, b, o)
    ensures var e := Condition(node); AnswerAt([Call(e, a), Call(e, b)], 1, o) != Evaluate(e, b, o)
  {
    hide Evaluate, AnswerAt, Condition;
    assert Keywords(node) == [];
    ConditionIs(node, a, o);
    ConditionIs(node, b, o);
    Stale(Condition(node), a, b, o);
  }

  lemma OtherTag(x: string, y: string, a: Data, b: Data, o: Outside)
    requires IsKeyword(x) && IsKeyword(y) && (x in a && y in a && a[x] == a[y]) != (x in b && y in b && b[x] == b[y])
    ensures var e := Condition(CompareNode("Compare", x, y, "EQ")); AnswerAt([Call(e, a), Call(e, b)], 1, o) != Evaluate(e, b, o)
  {
    var node := CompareNode("Compare", x, y, "EQ");
    assert OwnKeywords(node) == [] && node.children == [];
    hide Trim, KindOf, Evaluate, AnswerAt, Condition, CompareNode, OwnKeywords;
    KeywordIsTrimmed(x);
    KeywordIsTrimmed(y);
    CompareTags();
    EqualIs("Compare", x, y, a, o);
    EqualIs("Compare", x, y, b, o);
    UnwatchedIsStale(node, a, b, o);
  }

  lemma OtherSpacing(x: string, y: string, a: Data, b: Data, o: Outside)
    requires IsKeyword(x) && IsKeyword(y) && (x in a && y in a && a[x] == a[y]) != (x in b && y in b && b[x] == b[y])
    ensures var e := Condition(CompareNode("compare", " " + x, " " + y, "EQ"));
            AnswerAt([Call(e, a), Call(e, b)], 1, o) != Evaluate(e, b, o)
  {
    var node := CompareNode("compare", " " + x, " " + y, "EQ");
    assert OwnKeywords(node) == [] && node.children == [];
    hide Trim, KindOf, Evaluate, AnswerAt, Condition, CompareNode, OwnKeywords;
    SpaceIsTrimmed(x);
    SpaceIsTrimmed(y);
    KeywordIsTrimmed(x);
    KeywordIsTrimmed(y);
    CompareTags();
    EqualIs("compare", " " + x, " " + y, a, o);
    EqualIs("compare", " " + x, " " + y, b, o);
    UnwatchedIsStale(node, a, b, o);
  }

  lemma SpaceIsTrimmed(k: string)
    requires IsKeyword(k)
    ensures Trim(" " + k) == k
  {
    assert (" " + k)[1..] == k;
    assert TrimLeft(" " + k) == TrimLeft(k) == k;
  }
}
