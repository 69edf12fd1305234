/** Condition trees of smart contracts: what they evaluate to, and on which data that depends. */
module Conditions {

  datatype Option<T> = None | Some(value: T)

  /** An element with its attributes and its child elements, in order. */
  datatype Element = Element(name: string, attributes: map<string, string>, children: seq<Element>)

  type Data = map<string, string>

  /** What is not part of this model: parsing of numbers, the handlers of other tags, the digest. */
  datatype Outside = Outside(num: string -> int, other: (Element, Data) -> bool, hash: string -> seq<nat>)

  function Attribute(e: Element, name: string): string {
    if name in e.attributes then e.attributes[name] else ""
  }

  function Get(data: Data, key: string): Option<string> {
    if key in data then Some(data[key]) else None
  }

  // ---------- strings ----------

  predicate IsSpace(c: char) {
    c in " \t\n\r" || c == 11 as char || c == 12 as char
  }

  function TrimLeft(s: string): string {
    if s != "" && IsSpace(s[0]) then TrimLeft(s[1..]) else s
  }

  function TrimRight(s: string): string {
    if s != "" && IsSpace(s[|s| - 1]) then TrimRight(s[..|s| - 1]) else s
  }

  function Trim(s: string): string {
    TrimRight(TrimLeft(s))
  }

  function ToLower(s: string): string {
    if s == "" then "" else [if 'A' <= s[0] <= 'Z' then s[0] + 32 as char else s[0]] + ToLower(s[1..])
  }

  function ToUpper(s: string): string {
    if s == "" then "" else [if 'a' <= s[0] <= 'z' then s[0] - 32 as char else s[0]] + ToUpper(s[1..])
  }

  // ---------- comparing ----------

  datatype CompareType = EQ | NE | GE | LE | GT | LT | AGE | ALE | AGT | ALT | UNKNOWN

  function GetCompareType(text: string): CompareType {
    var t := ToUpper(text);
    if t in {"EQ", "=", "=="} then EQ
    else if t in {"NE", "!="} then NE
    else if t in {"GE", ">=", "=>"} then GE
    else if t in {"LE", "<=", "=<"} then LE
    else if t in {"GT", ">"} then GT
    else if t in {"LT", "<"} then LT
    else if t == "AGE" then AGE
    else if t == "ALE" then ALE
    else if t == "AGT" then AGT
    else if t == "ALT" then ALT
    else UNKNOWN
  }

  /** The value of an expression: itself, or what the data say of a $keyword. */
  function EvalOpt(data: Data, expr: string): Option<string> {
    var t := Trim(expr);
    if t == "" then None else if t[0] != '$' then Some(t) else Get(data, t)
  }

  function Abs(n: int): int {
    if n < 0 then -n else n
  }

  predicate Holds(t: CompareType, src: string, ref: string, abs: string, num: string -> int) {
    match t
    case EQ => src == ref
    case NE => src != ref
    case GE => num(src) >= num(ref)
    case LE => num(src) <= num(ref)
    case GT => num(src) > num(ref)
    case LT => num(src) < num(ref)
    case AGE => Abs(num(src) - num(ref)) >= num(abs)
    case ALE => Abs(num(src) - num(ref)) <= num(abs)
    case AGT => Abs(num(src) - num(ref)) > num(abs)
    case ALT => Abs(num(src) - num(ref)) < num(abs)
    case UNKNOWN => false
  }

  predicate Compare(e: Element, data: Data, num: string -> int) {
    var src, ref := Trim(Attribute(e, "src")), Trim(Attribute(e, "ref"));
    if src == "" || ref == "" then false
    else
      match EvalOpt(data, src)
      case None => false
      case Some(s) =>
        match EvalOpt(data, ref)
        case None => false
        case Some(r) => Holds(GetCompareType(Attribute(e, "type")), s, r, Trim(Attribute(e, "abs")), num)
  }

  // ---------- trees ----------

  datatype Kind = ROOT | IF | NIF | COMPARE | HANDLED | OTHER

  /** HANDLED stands for the tags with a handler of their own. */
  function KindOf(tag: string): Kind {
    var t := ToLower(tag);
    if t in {"condition", "update"} then ROOT
    else if t == "if" then IF
    else if t == "nif" then NIF
    else if t == "compare" then COMPARE
    else if t in {"signature", "certificate", "time", "endorser", "receiver", "user", "var"} then HANDLED
    else OTHER
  }

  /** All children have to hold, unless the rule is absent or says "or". */
  predicate IsAnd(e: Element) {
    Attribute(e, "eval-rule") != "" && ToLower(Attribute(e, "eval-rule")) != "or"
  }

  /** Whether a condition holds: the meaning of a tree. */
  predicate Evaluate(e: Element, data: Data, o: Outside) {
    match KindOf(e.name)
    case COMPARE => Compare(e, data, o.num)
    case HANDLED => o.other(e, data)
    case OTHER => true
    case _ =>
      var all := if IsAnd(e) then forall i :: 0 <= i < |e.children| ==> Evaluate(e.children[i], data, o)
                 else exists i :: 0 <= i < |e.children| && Evaluate(e.children[i], data, o);
      if KindOf(e.name) == NIF then !all else all
  }

  /** The walk of `ConditionHandler::evalue`, which visits every child whatever the others say. */
  method EvaluateElement(e: Element, data: Data, o: Outside) returns (result: bool)
    ensures result == Evaluate(e, data, o)
    decreases e
  {
    hide KindOf, IsAnd, Compare;
    result := true;
    var kind := KindOf(e.name);
    match kind {
    case ROOT | IF | NIF =>
      if IsAnd(e) {
        result := true;
        for i := 0 to |e.children|
          invariant result == forall j :: 0 <= j < i ==> Evaluate(e.children[j], data, o)
        {
          var one := EvaluateElement(e.children[i], data, o);
          result := result && one;
        }
      } else {
        result := false;
        for i := 0 to |e.children|
          invariant result == exists j :: 0 <= j < i && Evaluate(e.children[j], data, o)
        {
          var one := EvaluateElement(e.children[i], data, o);
          result := result || one;
        }
      }
    case COMPARE => result := Compare(e, data, o.num);
    case HANDLED => result := o.other(e, data);
    case OTHER =>
    }
    if kind == NIF {
      result := !result;
    }
  }

  // ---------- keywords ----------

  /** An attribute counts as a keyword when it starts with a dollar sign, untrimmed. */
  function Pushed(e: Element, name: string): seq<string> {
    var v := Attribute(e, name);
    if v != "" && v[0] == '$' then [v] else []
  }

  /** The keywords of one element: the tag is taken as it is written. */
  function OwnKeywords(e: Element): seq<string> {
    if e.name == "compare" then Pushed(e, "src") + Pushed(e, "ref")
    else if e.name == "age" then Pushed(e, "after") + Pushed(e, "before")
    else if e.name == "var" then Pushed(e, "id") + Pushed(e, "name")
    else Pushed(e, "value")
  }

  function Keywords(e: Element): seq<string> {
    OwnKeywords(e) + KeywordsOfAll(e.children)
  }

  function KeywordsOfAll(es: seq<Element>): seq<string> {
    if es == [] then [] else Keywords(es[0]) + KeywordsOfAll(es[1..])
  }

  /** `checkAndPush` */
  method CheckAndPush(e: Element, name: string, keywords: seq<string>) returns (r: seq<string>)
    ensures r == keywords + Pushed(e, name)
  {
    var value := Attribute(e, name);
    if value == "" {
      return keywords;
    }
    if value[0] == '$' {
      return keywords + [value];
    }
    return keywords;
  }

  method PushOwn(e: Element, keywords: seq<string>) returns (r: seq<string>)
    ensures r == keywords + OwnKeywords(e)
  {
    hide Pushed, Attribute;
    if e.name == "compare" {
      r := CheckAndPush(e, "src", keywords);
      r := CheckAndPush(e, "ref", r);
    } else if e.name == "age" {
      r := CheckAndPush(e, "after", keywords);
      r := CheckAndPush(e, "before", r);
    } else if e.name == "var" {
      r := CheckAndPush(e, "id", keywords);
      r := CheckAndPush(e, "name", r);
    } else {
      r := CheckAndPush(e, "value", keywords);
    }
  }

  /** `keyword_search`: an element's own keywords, then those of its children. */
  method KeywordSearch(e: Element, keywords: seq<string>) returns (r: seq<string>)
    ensures r == keywords + Keywords(e)
    decreases e
  {
    hide OwnKeywords;
    r := PushOwn(e, keywords);
    ghost var before := r;
    ghost var found: seq<string> := [];
    assert before + found == before;
    for i := 0 to |e.children|
      invariant r == before + found
      invariant found + KeywordsOfAll(e.children[i..]) == KeywordsOfAll(e.children)
    {
      OneChild(found, e.children, i);
      r := KeywordSearch(e.children[i], r);
      Associative(before, found, Keywords(e.children[i]));
      found := found + Keywords(e.children[i]);
    }
    assert found == KeywordsOfAll(e.children);
    Associative(keywords, OwnKeywords(e), found);
  }

  lemma Associative<T>(a: seq<T>, b: seq<T>, c: seq<T>)
    ensures a + b + c == a + (b + c)
  {
  }

  lemma OneChild(found: seq<string>, es: seq<Element>, i: nat)
    requires i < |es|
    ensures found + KeywordsOfAll(es[i..]) == found + Keywords(es[i]) + KeywordsOfAll(es[i + 1..])
  {
    assert es[i..][0] == es[i] && es[i..][1..] == es[i + 1..];
  }

  // ---------- the footprint ----------

  /** Nothing below e looks at data that the keyword search does not see. */
  predicate Covered(e: Element) {
    match KindOf(e.name)
    case COMPARE =>
      e.name == "compare"
      && Trim(Attribute(e, "src")) == Attribute(e, "src") && Trim(Attribute(e, "ref")) == Attribute(e, "ref")
    case HANDLED => false
    case OTHER => true
    case _ => forall i :: 0 <= i < |e.children| ==> Covered(e.children[i])
  }

  predicate Agree(a: Data, b: Data, keywords: seq<string>) {
    forall i :: 0 <= i < |keywords| ==> Get(a, keywords[i]) == Get(b, keywords[i])
  }

  lemma {:induction false} KeywordsOfChild(es: seq<Element>, i: nat, k: string)
    requires i < |es| && k in Keywords(es[i])
    ensures k in KeywordsOfAll(es)
  {
    if i > 0 {
      KeywordsOfChild(es[1..], i - 1, k);
    }
  }

  lemma AgreeOnOperand(e: Element, name: string, a: Data, b: Data)
    requires Agree(a, b, Pushed(e, name)) && Trim(Attribute(e, name)) == Attribute(e, name)
    ensures EvalOpt(a, Attribute(e, name)) == EvalOpt(b, Attribute(e, name))
  {
    var v := Attribute(e, name);
    if v != "" && v[0] == '$' {
      assert Pushed(e, name)[0] == v;
    }
  }

  /** Two states of the data that agree on the collected keywords evaluate the tree alike. */
  lemma {:induction false} Footprint(e: Element, a: Data, b: Data, o: Outside)
    requires Covered(e) && Agree(a, b, Keywords(e))
    ensures Evaluate(e, a, o) == Evaluate(e, b, o)
    decreases e
  {
    hide KindOf, Compare, OwnKeywords, Keywords, IsAnd, Agree;
    match KindOf(e.name)
    case COMPARE => CompareFootprint(e, a, b, o);
    case OTHER =>
    case HANDLED =>
    case _ =>
      forall i | 0 <= i < |e.children| ensures Evaluate(e.children[i], a, o) == Evaluate(e.children[i], b, o) {
        AgreeBelow(e, a, b, i);
        Footprint(e.children[i], a, b, o);
      }
  }

  lemma AgreeBelow(e: Element, a: Data, b: Data, i: nat)
    requires Agree(a, b, Keywords(e)) && i < |e.children|
    ensures Agree(a, b, Keywords(e.children[i]))
  {
    var all, kids := Keywords(e), Keywords(e.children[i]);
    forall j | 0 <= j < |kids| ensures Get(a, kids[j]) == Get(b, kids[j]) {
      assert kids[j] in kids;
      KeywordsOfChild(e.children, i, kids[j]);
      assert kids[j] in all;
    }
  }

  lemma CompareFootprint(e: Element, a: Data, b: Data, o: Outside)
    requires KindOf(e.name) == COMPARE && Covered(e) && Agree(a, b, Keywords(e))
    ensures Compare(e, a, o.num) == Compare(e, b, o.num)
  {
    hide Trim, KindOf, GetCompareType, Holds;
    var own, src := OwnKeywords(e), Pushed(e, "src");
    assert forall i :: 0 <= i < |own| ==> Keywords(e)[i] == own[i];
    assert forall i :: 0 <= i < |src| ==> own[i] == src[i];
    assert forall i :: 0 <= i < |Pushed(e, "ref")| ==> own[|src| + i] == Pushed(e, "ref")[i];
    hide Pushed, EvalOpt;
    AgreeOnOperand(e, "src", a, b);
    AgreeOnOperand(e, "ref", a, b);
  }
}
