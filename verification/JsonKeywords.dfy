/** What each keyword demands of a value, and that a schema demands exactly what its keywords do. */
module JsonKeywords {
  import opened JsonValues
  import opened JsonOrder
  import opened JsonSchemas
  import opened JsonDraft
  import XmlUtf8

  // ---------- keywords for any value ----------

  predicate NotMet(x: Json, excluded: Option<Schema>, env: Env, draft: bool) {
    excluded.Some? ==> !Valid(x, excluded.value, env, draft)
  }

  predicate AllMet(x: Json, l: Several, env: Env, draft: bool) {
    l.Of? ==> forall i :: 0 <= i < |l.schemas| ==> Valid(x, l.schemas[i], env, draft)
  }

  predicate AnyMet(x: Json, l: Several, env: Env, draft: bool) {
    l.Of? ==> exists i :: 0 <= i < |l.schemas| && Valid(x, l.schemas[i], env, draft)
  }

  /** Exactly one. */
  predicate OneMet(x: Json, l: Several, env: Env, draft: bool) {
    l.Of? ==>
      && (exists i :: 0 <= i < |l.schemas| && Valid(x, l.schemas[i], env, draft))
      && forall i, j :: 0 <= i < j < |l.schemas| && Valid(x, l.schemas[i], env, draft) ==> !Valid(x, l.schemas[j], env, draft)
  }

  predicate EnumMet(x: Json, listed: Option<seq<Json>>, draft: bool) {
    listed.Some? ==> exists i :: 0 <= i < |listed.value| && if draft then listed.value[i] == x else Equal(listed.value[i], x)
  }

  /** The names of a value's types; an integer is a number, too. */
  function Kinds(x: Json): set<string> {
    match x
    case Null => {"null"}
    case Bool(_) => {"boolean"}
    case Int(_) => {"integer", "number"}
    case Str(_) => {"string"}
    case Arr(_) => {"array"}
    case Obj(_) => {"object"}
  }

  predicate TypeMet(x: Json, types: Types) {
    match types
    case AnyType => true
    case OneType(name) => name in Kinds(x)
    case SomeTypes(names) => exists i :: 0 <= i < |names| && names[i] in Kinds(x)
  }

  // ---------- numbers ----------

  /** A number as 64 bits show it, unsigned or signed. */
  function View(n: int, unsigned: bool): int {
    if unsigned && n < 0 then n + Two64 else if !unsigned && n >= Two63 then n - Two64 else n
  }

  /** The draft compares numbers as they are; the program their 64 bits, which are unsigned if neither
    * the number nor the minimum would be negative with a sign, the number being unsigned already.
    */
  predicate BoundsMet(x: Json, most: Option<int>, below: bool, least: Option<int>, above: bool, draft: bool) {
    x.Int? ==>
      var unsigned := x.n >= 0 && least.Some? && 0 <= least.value < Two63;
      var n := if draft then x.n else View(x.n, unsigned);
      && (most.Some? ==>
            var m := if draft then most.value else View(most.value, unsigned);
            n <= m && !(below && n == m))
      && (least.Some? ==>
            var m := if draft then least.value else View(least.value, unsigned);
            n >= m && !(above && n == m))
  }

  // ---------- strings ----------

  /** How many characters begin a code point in UTF-8. */
  function CodePoints(t: string): nat {
    if t == "" then 0 else CodePoints(t[..|t| - 1]) + if 0x80 <= t[|t| - 1] as int % 0x100 < 0xC0 then 0 else 1
  }

  predicate LengthMet(x: Json, least: Option<nat>, most: Option<nat>) {
    x.Str? ==> (least.Some? ==> CodePoints(x.s) >= least.value) && (most.Some? ==> CodePoints(x.s) <= most.value)
  }

  predicate PatternMet(x: Json, pattern: Option<string>, env: Env) {
    x.Str? && pattern.Some? ==> env.search(pattern.value, x.s) == Some(true)
  }

  /** Without a checker, the draft accepts any string and the program none. */
  predicate FormatMet(x: Json, format: Option<string>, env: Env, draft: bool) {
    x.Str? && format.Some? ==> (env.format.Some? && env.format.value(format.value, x.s)) || (env.format == None && draft)
  }

  // ---------- arrays ----------

  predicate ItemCountMet(x: Json, least: Option<nat>, most: Option<nat>) {
    x.Arr? ==> (least.Some? ==> |x.items| >= least.value) && (most.Some? ==> |x.items| <= most.value)
  }

  predicate UniqueMet(x: Json, unique: bool, env: Env, draft: bool) {
    x.Arr? && unique ==>
      if draft then forall i, j :: 0 <= i < j < |x.items| ==> x.items[i] != x.items[j]
      else forall i :: 0 <= i < |x.items| ==> !env.refuses(x.items[..i], x.items[i])
  }

  predicate OthersMet(x: Json, others: Additional, env: Env, draft: bool) {
    others != Flag(false) && (others.Sub? ==> Valid(x, others.schema, env, draft))
  }

  /** One schema for all items, or one for each place and something for the places behind. */
  predicate ItemMet(x: Json, i: nat, items: Items, others: Additional, env: Env, draft: bool) {
    && (items.Each? ==> Valid(x, items.schema, env, draft))
    && (items.Tuple? && i < |items.schemas| ==> Valid(x, items.schemas[i], env, draft))
    && (items.Tuple? && i >= |items.schemas| ==> OthersMet(x, others, env, draft))
  }

  predicate ItemsMet(x: Json, items: Items, others: Additional, env: Env, draft: bool) {
    x.Arr? ==> forall i :: 0 <= i < |x.items| ==> ItemMet(x.items[i], i, items, others, env, draft)
  }

  // ---------- objects ----------

  predicate HasMember(x: Json, key: string) {
    x.Obj? && exists i :: 0 <= i < |x.members| && x.members[i].key == key
  }

  predicate MemberCountMet(x: Json, least: Option<nat>, most: Option<nat>) {
    x.Obj? ==> (least.Some? ==> |x.members| >= least.value) && (most.Some? ==> |x.members| <= most.value)
  }

  predicate RequiredMet(x: Json, keys: seq<string>) {
    x.Obj? ==> forall j :: 0 <= j < |keys| ==> HasMember(x, keys[j])
  }

  /** With a key that is there come a schema, for the whole object, or other keys. */
  predicate DependenciesMet(x: Json, ds: seq<Dependency>, env: Env, draft: bool) {
    forall i :: 0 <= i < |ds| && HasMember(x, ds[i].key) ==>
      && (ds[i].need.NeedsSchema? ==> Valid(x, ds[i].need.schema, env, draft))
      && (ds[i].need.NeedsAll? ==> RequiredMet(x, ds[i].need.keys))
  }

  predicate FirstNamed(ps: seq<Property>, j: nat, key: string)
    requires j < |ps|
  {
    ps[j].key == key && forall i :: 0 <= i < j ==> ps[i].key != key
  }

  /** The property of that name, all patterns that match, and what is said of any other. */
  predicate MemberMet(m: Member, ps: seq<Property>, patterns: seq<Property>, others: Additional, env: Env, draft: bool) {
    && (forall j :: 0 <= j < |ps| && FirstNamed(ps, j, m.key) ==> Valid(m.value, ps[j].schema, env, draft))
    && (forall j :: 0 <= j < |patterns| ==>
          && env.search(patterns[j].key, m.key) != None
          && (env.search(patterns[j].key, m.key) == Some(true) ==> Valid(m.value, patterns[j].schema, env, draft)))
    && ((forall j :: 0 <= j < |ps| ==> ps[j].key != m.key)
        && (forall j :: 0 <= j < |patterns| ==> env.search(patterns[j].key, m.key) != Some(true)) ==>
          OthersMet(m.value, others, env, draft))
  }

  predicate PropertiesMet(x: Json, ps: seq<Property>, patterns: seq<Property>, others: Additional, env: Env, draft: bool) {
    x.Obj? ==> forall i :: 0 <= i < |x.members| ==> MemberMet(x.members[i], ps, patterns, others, env, draft)
  }

  // ---------- validity is that of the keywords ----------

  predicate CombinationMet(x: Json, s: Schema, env: Env, draft: bool) {
    && NotMet(x, s.isNot, env, draft) && AllMet(x, s.allOf, env, draft)
    && AnyMet(x, s.anyOf, env, draft) && OneMet(x, s.oneOf, env, draft)
  }

  predicate ScalarMet(x: Json, s: Schema, env: Env, draft: bool) {
    && BoundsMet(x, s.maximum, s.exclusiveMaximum, s.minimum, s.exclusiveMinimum, draft)
    && LengthMet(x, s.minLength, s.maxLength) && PatternMet(x, s.pattern, env) && FormatMet(x, s.format, env, draft)
  }

  predicate ArrayMet(x: Json, s: Schema, env: Env, draft: bool) {
    && ItemCountMet(x, s.minItems, s.maxItems) && UniqueMet(x, s.uniqueItems, env, draft)
    && ItemsMet(x, s.items, s.additionalItems, env, draft)
  }

  predicate ObjectMet(x: Json, s: Schema, env: Env, draft: bool) {
    && MemberCountMet(x, s.minProperties, s.maxProperties)
    && PropertiesMet(x, s.properties, s.patternProperties, s.additionalProperties, env, draft)
    && RequiredMet(x, s.required) && DependenciesMet(x, s.dependencies, env, draft)
  }

  /** Every keyword of the schema is met. */
  predicate Met(x: Json, s: Schema, env: Env, draft: bool) {
    && CombinationMet(x, s, env, draft) && EnumMet(x, s.enumeration, draft) && TypeMet(x, s.types)
    && ScalarMet(x, s, env, draft) && ArrayMet(x, s, env, draft) && ObjectMet(x, s, env, draft)
  }

  /** A value is valid exactly if every keyword is met; to the program, where none is left unread. */
  lemma ValidIsMet(x: Json, s: Schema, env: Env, draft: bool)
    requires draft || Alone(s)
    ensures Valid(x, s, env, draft) <==> Met(x, s, env, draft)
  {
    hide *;
    CombinationIs(x, s, env, draft);
    PlainlyIs(x, s, env, draft);
    MetIs(x, s, env, draft);
    if !draft && s.isNot.Some? {
      NothingElse(x, s, env);
    }
  }

  lemma MetIs(x: Json, s: Schema, env: Env, draft: bool)
    ensures Met(x, s, env, draft) <==> CombinationMet(x, s, env, draft) && PlainMet(x, s, env, draft)
  {
    hide CombinationMet, EnumMet, TypeMet, ScalarMet, ArrayMet, ObjectMet;
  }

  predicate PlainMet(x: Json, s: Schema, env: Env, draft: bool) {
    && EnumMet(x, s.enumeration, draft) && TypeMet(x, s.types)
    && ScalarMet(x, s, env, draft) && ArrayMet(x, s, env, draft) && ObjectMet(x, s, env, draft)
  }

  lemma CombinationIs(x: Json, s: Schema, env: Env, draft: bool)
    requires draft || Alone(s)
    ensures Valid(x, s, env, draft) <==>
      CombinationMet(x, s, env, draft) && ((!draft && s.isNot.Some?) || Plainly(x, s, env, draft))
  {
    ResultsAre(x, s.allOf, env, draft);
    ResultsAre(x, s.anyOf, env, draft);
    ResultsAre(x, s.oneOf, env, draft);
    hide AllMet, AnyMet, OneMet, All, Any, One, Results, Plainly;
    NothingSaid(x, env, draft);
  }

  lemma NothingSaid(x: Json, env: Env, draft: bool)
    ensures AllMet(x, Absent, env, draft) && AnyMet(x, Absent, env, draft) && OneMet(x, Absent, env, draft)
  {
  }

  lemma ResultsAre(x: Json, l: Several, env: Env, draft: bool)
    ensures l.Of? ==>
      && (All(Results(x, l.schemas, env, draft)) <==> AllMet(x, l, env, draft))
      && (Any(Results(x, l.schemas, env, draft)) <==> AnyMet(x, l, env, draft))
      && (One(Results(x, l.schemas, env, draft)) <==> OneMet(x, l, env, draft))
  {
    if l.Of? {
      ResultsAt(x, l.schemas, env, draft);
      hide Valid, Results;
      AllOrAny(x, l, env, draft);
      JustOne(x, l, env, draft);
      hide *;
    }
  }

  lemma ResultsAt(x: Json, subs: seq<Schema>, env: Env, draft: bool)
    ensures forall i :: 0 <= i < |subs| ==> Results(x, subs, env, draft)[i] == Valid(x, subs[i], env, draft)
  {
  }

  lemma AllOrAny(x: Json, l: Several, env: Env, draft: bool)
    requires l.Of? && forall i :: 0 <= i < |l.schemas| ==> Results(x, l.schemas, env, draft)[i] == Valid(x, l.schemas[i], env, draft)
    ensures All(Results(x, l.schemas, env, draft)) <==> AllMet(x, l, env, draft)
    ensures Any(Results(x, l.schemas, env, draft)) <==> AnyMet(x, l, env, draft)
  {
    hide Valid, Results;
  }

  lemma JustOne(x: Json, l: Several, env: Env, draft: bool)
    requires l.Of? && forall i :: 0 <= i < |l.schemas| ==> Results(x, l.schemas, env, draft)[i] == Valid(x, l.schemas[i], env, draft)
    ensures One(Results(x, l.schemas, env, draft)) <==> OneMet(x, l, env, draft)
  {
    hide Valid, Results;
    OneIs(Results(x, l.schemas, env, draft));
    hide One;
  }

  lemma OneIs(r: seq<bool>)
    ensures One(r) <==> (exists i :: 0 <= i < |r| && r[i]) && forall i, j :: 0 <= i < j < |r| && r[i] ==> !r[j]
  {
  }

  /** Beside "not" nothing else is said. */
  lemma NothingElse(x: Json, s: Schema, env: Env)
    requires Alone(s) && s.isNot.Some?
    ensures PlainMet(x, s, env, false)
  {
    hide Valid, CodePoints, Kinds;
  }

  lemma PlainlyIs(x: Json, s: Schema, env: Env, draft: bool)
    ensures Plainly(x, s, env, draft) <==> PlainMet(x, s, env, draft)
  {
    EnumIs(x, s, draft);
    TypeIs(x, s.types);
    hide EnumMet, TypeMet, TypeHolds, Contains;
    match x {
      case Int(n) => NumberIs(n, s, env, draft);
      case Str(t) => StringIs(t, s, env, draft);
      case Arr(xs) => ArrayIs(xs, s, env, draft);
      case Obj(members) => ObjectIs(members, s, env, draft);
      case _ =>
    }
    OtherKinds(x, s, env, draft);
    hide NumberHolds, WithinBounds, StringHolds, ArrayHolds, ObjectHolds, ScalarMet, ArrayMet, ObjectMet;
  }

  lemma OtherKinds(x: Json, s: Schema, env: Env, draft: bool)
    ensures !x.Int? && !x.Str? ==> ScalarMet(x, s, env, draft)
    ensures !x.Arr? ==> ArrayMet(x, s, env, draft)
    ensures !x.Obj? ==> ObjectMet(x, s, env, draft)
  {
    hide Valid, CodePoints;
  }

  lemma EnumIs(x: Json, s: Schema, draft: bool)
    ensures EnumMet(x, s.enumeration, draft) <==>
      (s.enumeration.Some? ==> if draft then x in s.enumeration.value else Contains(s.enumeration.value, x))
  {
    hide Equal;
  }

  lemma TypeIs(x: Json, types: Types)
    ensures TypeHolds(types, TypeOf(x)) <==> TypeMet(x, types)
  {
    assert TypesOf(TypeOf(x)) == Kinds(x);
    var both := Named(types) * Kinds(x);
    hide Kinds, TypesOf, TypeOf;
    if both != {} {
      var t :| t in both;
      assert TypeMet(x, types);
    }
    if !types.AnyType? && TypeMet(x, types) {
      var t :| t in Named(types) && t in Kinds(x);
      assert t in both;
    }
  }

  lemma NumberIs(n: JsonInt, s: Schema, env: Env, draft: bool)
    ensures ScalarMet(Int(n), s, env, draft) <==> if draft then WithinBounds(n, s) else NumberHolds(n, s)
  {
    if draft {
      NumberAsIs(n, s, env);
    } else {
      NumberViewed(n, s, env);
    }
  }

  lemma NumberAsIs(n: JsonInt, s: Schema, env: Env)
    ensures ScalarMet(Int(n), s, env, true) <==> WithinBounds(n, s)
  {
    hide View;
  }

  lemma NumberViewed(n: JsonInt, s: Schema, env: Env)
    ensures ScalarMet(Int(n), s, env, false) <==> NumberHolds(n, s)
  {
    hide Signed64, Unsigned64, View;
    ViewIs(n);
    if s.maximum.Some? {
      ViewIs(s.maximum.value);
    }
    if s.minimum.Some? {
      ViewIs(s.minimum.value);
    }
  }

  lemma ViewIs(n: JsonInt)
    ensures Signed64(n) == View(n, false) && Unsigned64(n) == View(n, true)
    ensures Signed64(n) >= 0 <==> 0 <= n < Two63
  {
  }

  lemma StringIs(t: string, s: Schema, env: Env, draft: bool)
    ensures ScalarMet(Str(t), s, env, draft) <==> StringHolds(t, s, env, draft)
  {
    LengthIs(t);
    hide Length, CodePoints;
  }

  lemma ContinuationIs(n: int)
    requires 0 <= n < 0x100
    ensures XmlUtf8.IsContinuation(n as bv32) <==> 0x80 <= n < 0xC0
  {
    var b := n as bv32;
    assert b < 0x80 || n >= 0x80;
    assert b >= 0x80 || n < 0x80;
    assert b < 0xC0 || n >= 0xC0;
    assert b >= 0xC0 || n < 0xC0;
    assert b < 0x100 || n >= 0x100;
    ContinuationRange(b);
  }

  lemma ContinuationRange(b: bv32)
    requires b < 0x100
    ensures XmlUtf8.IsContinuation(b) <==> 0x80 <= b < 0xC0
  {
  }

  lemma {:induction false} LengthIs(t: string)
    ensures Length(t) == CodePoints(t)
  {
    if t != "" {
      var n := |t| - 1;
      assert Bytes(t)[..n] == Bytes(t[..n]);
      LengthIs(t[..n]);
      ContinuationIs(t[n] as int % 0x100);
    }
  }

  lemma ArrayIs(xs: seq<Json>, s: Schema, env: Env, draft: bool)
    ensures ArrayMet(Arr(xs), s, env, draft) <==> ArrayHolds(xs, s, env, draft)
  {
    forall i | 0 <= i < |xs|
      ensures ItemHolds(xs[i], i, s, env, draft) == ItemMet(xs[i], i, s.items, s.additionalItems, env, draft)
    {
      ItemIs(xs[i], i, s, env, draft);
    }
    hide ItemHolds, ItemMet;
  }

  lemma ItemIs(x: Json, i: nat, s: Schema, env: Env, draft: bool)
    ensures ItemHolds(x, i, s, env, draft) == ItemMet(x, i, s.items, s.additionalItems, env, draft)
  {
    OthersAre(x, s.additionalItems, env, draft);
    hide Valid, AdditionalHolds, OthersMet;
  }

  lemma OthersAre(x: Json, others: Additional, env: Env, draft: bool)
    ensures AdditionalHolds(x, others, env, draft) == OthersMet(x, others, env, draft)
  {
    hide Valid;
  }

  lemma ObjectIs(members: seq<Member>, s: Schema, env: Env, draft: bool)
    ensures ObjectMet(Obj(members), s, env, draft) <==> ObjectHolds(members, s, env, draft)
  {
    forall i | 0 <= i < |members|
      ensures MemberHolds(members[i], s, env, draft)
           == MemberMet(members[i], s.properties, s.patternProperties, s.additionalProperties, env, draft)
    {
      MemberIs(members[i], s, env, draft);
    }
    KeysAre(members, s.required);
    DependenciesAre(members, s, env, draft);
    hide MemberHolds, MemberMet, NeedHolds, DependenciesMet, RequiredMet, Has;
  }

  lemma HasIs(members: seq<Member>, key: string)
    ensures Has(members, key) <==> HasMember(Obj(members), key)
  {
  }

  lemma KeysAre(members: seq<Member>, keys: seq<string>)
    ensures RequiredMet(Obj(members), keys) <==> forall k :: k in keys ==> Has(members, k)
  {
    forall k ensures Has(members, k) <==> HasMember(Obj(members), k) {
      HasIs(members, k);
    }
    hide Has, HasMember;
  }

  lemma DependenciesAre(members: seq<Member>, s: Schema, env: Env, draft: bool)
    ensures DependenciesMet(Obj(members), s.dependencies, env, draft) <==>
      forall i :: 0 <= i < |s.dependencies| && Has(members, s.dependencies[i].key) ==>
        NeedHolds(members, s.dependencies[i].need, env, draft)
  {
    forall i | 0 <= i < |s.dependencies|
      ensures Has(members, s.dependencies[i].key) <==> HasMember(Obj(members), s.dependencies[i].key)
      ensures var need := s.dependencies[i].need;
              NeedHolds(members, need, env, draft) <==>
                && (need.NeedsSchema? ==> Valid(Obj(members), need.schema, env, draft))
                && (need.NeedsAll? ==> RequiredMet(Obj(members), need.keys))
    {
      HasIs(members, s.dependencies[i].key);
      if s.dependencies[i].need.NeedsAll? {
        KeysAre(members, s.dependencies[i].need.keys);
      }
      hide Valid, Has, HasMember, RequiredMet;
    }
    hide Valid, Has, HasMember, RequiredMet, NeedHolds;
  }

  lemma MemberIs(m: Member, s: Schema, env: Env, draft: bool)
    ensures MemberHolds(m, s, env, draft)
         == MemberMet(m, s.properties, s.patternProperties, s.additionalProperties, env, draft)
  {
    DescribedIs(m, s.properties, env, draft);
    OthersAre(m.value, s.additionalProperties, env, draft);
    PatternsAre(m, s.patternProperties, env, draft);
    hide Valid, Described, FirstNamed, AdditionalHolds, OthersMet, PatternHolds;
  }

  lemma PatternsAre(m: Member, patterns: seq<Property>, env: Env, draft: bool)
    ensures forall j :: 0 <= j < |patterns| ==>
      (PatternHolds(m, patterns[j], env, draft) <==>
         && env.search(patterns[j].key, m.key) != None
         && (env.search(patterns[j].key, m.key) == Some(true) ==> Valid(m.value, patterns[j].schema, env, draft)))
  {
    hide Valid;
  }

  lemma DescribedIs(m: Member, ps: seq<Property>, env: Env, draft: bool)
    ensures var d := Described(ps, m.key);
            && (d == None <==> forall j :: 0 <= j < |ps| ==> ps[j].key != m.key)
            && ((d.Some? ==> Valid(m.value, d.value, env, draft)) <==>
                forall j :: 0 <= j < |ps| && FirstNamed(ps, j, m.key) ==> Valid(m.value, ps[j].schema, env, draft))
  {
    var k := FirstIs(ps, m.key);
    OnlyOneIsFirst(ps, k, m.key);
    hide Valid, Described, FirstNamed;
  }

  lemma OnlyOneIsFirst(ps: seq<Property>, k: nat, key: string)
    requires k <= |ps| && (forall j :: 0 <= j < k ==> ps[j].key != key) && (k < |ps| ==> ps[k].key == key)
    ensures forall j :: 0 <= j < |ps| ==> (FirstNamed(ps, j, key) <==> j == k)
  {
  }

  lemma {:induction false} FirstIs(ps: seq<Property>, key: string) returns (k: nat)
    ensures k <= |ps| && (forall j :: 0 <= j < k ==> ps[j].key != key) && (k < |ps| ==> ps[k].key == key)
    ensures Described(ps, key) == if k < |ps| then Some(ps[k].schema) else None
  {
    if ps == [] || ps[0].key == key {
      k := 0;
    } else {
      k := FirstIs(ps[1..], key);
      k := k + 1;
      assert forall j :: 1 <= j < k ==> ps[j] == ps[1..][j - 1];
    }
  }

  // ---------- one keyword at a time ----------

  /** All keywords, side by side. */
  lemma KeywordByKeyword(x: Json, s: Schema, env: Env, draft: bool)
    requires draft || Alone(s)
    ensures Valid(x, s, env, draft) <==>
      && NotMet(x, s.isNot, env, draft) && AllMet(x, s.allOf, env, draft) && AnyMet(x, s.anyOf, env, draft)
      && OneMet(x, s.oneOf, env, draft) && EnumMet(x, s.enumeration, draft) && TypeMet(x, s.types)
      && BoundsMet(x, s.maximum, s.exclusiveMaximum, s.minimum, s.exclusiveMinimum, draft)
      && LengthMet(x, s.minLength, s.maxLength) && PatternMet(x, s.pattern, env) && FormatMet(x, s.format, env, draft)
      && ItemCountMet(x, s.minItems, s.maxItems) && UniqueMet(x, s.uniqueItems, env, draft)
      && ItemsMet(x, s.items, s.additionalItems, env, draft) && MemberCountMet(x, s.minProperties, s.maxProperties)
      && PropertiesMet(x, s.properties, s.patternProperties, s.additionalProperties, env, draft)
      && RequiredMet(x, s.required) && DependenciesMet(x, s.dependencies, env, draft)
  {
    ValidIsMet(x, s, env, draft);
    hide Valid, NotMet, AllMet, AnyMet, OneMet, EnumMet, TypeMet, BoundsMet, LengthMet, PatternMet, FormatMet, ItemCountMet;
    hide UniqueMet, ItemsMet, MemberCountMet, PropertiesMet, RequiredMet, DependenciesMet;
  }

  /** Nothing is demanded where nothing is said. */
  lemma Silence(x: Json, env: Env, draft: bool)
    ensures NotMet(x, None, env, draft) && AllMet(x, Absent, env, draft) && AnyMet(x, Absent, env, draft)
    ensures OneMet(x, Absent, env, draft) && EnumMet(x, None, draft) && TypeMet(x, AnyType)
    ensures BoundsMet(x, None, false, None, false, draft)
    ensures LengthMet(x, None, None) && PatternMet(x, None, env) && FormatMet(x, None, env, draft)
    ensures ItemCountMet(x, None, None) && UniqueMet(x, false, env, draft) && ItemsMet(x, NoItems, Unsaid, env, draft)
    ensures MemberCountMet(x, None, None) && PropertiesMet(x, [], [], Unsaid, env, draft)
    ensures RequiredMet(x, []) && DependenciesMet(x, [], env, draft)
  {
    hide Valid, CodePoints;
  }

  lemma NotMeans(x: Json, excluded: Option<Schema>, env: Env, draft: bool)
    ensures Valid(x, Empty.(isNot := excluded), env, draft) <==> NotMet(x, excluded, env, draft)
  {
    var s := Empty.(isNot := excluded);
    assert Alone(s);
    KeywordByKeyword(x, s, env, draft);
    Silence(x, env, draft);
    hide *;
  }

  lemma AllOfMeans(x: Json, l: Several, env: Env, draft: bool)
    ensures Valid(x, Empty.(allOf := l), env, draft) <==> AllMet(x, l, env, draft)
  {
    var s := Empty.(allOf := l);
    assert Alone(s);
    KeywordByKeyword(x, s, env, draft);
    Silence(x, env, draft);
    hide *;
  }

  lemma AnyOfMeans(x: Json, l: Several, env: Env, draft: bool)
    ensures Valid(x, Empty.(anyOf := l), env, draft) <==> AnyMet(x, l, env, draft)
  {
    var s := Empty.(anyOf := l);
    assert Alone(s);
    KeywordByKeyword(x, s, env, draft);
    Silence(x, env, draft);
    hide *;
  }

  lemma OneOfMeans(x: Json, l: Several, env: Env, draft: bool)
    ensures Valid(x, Empty.(oneOf := l), env, draft) <==> OneMet(x, l, env, draft)
  {
    var s := Empty.(oneOf := l);
    assert Alone(s);
    KeywordByKeyword(x, s, env, draft);
    Silence(x, env, draft);
    hide *;
  }

  lemma EnumMeans(x: Json, listed: Option<seq<Json>>, env: Env, draft: bool)
    ensures Valid(x, Empty.(enumeration := listed), env, draft) <==> EnumMet(x, listed, draft)
  {
    var s := Empty.(enumeration := listed);
    assert Alone(s);
    KeywordByKeyword(x, s, env, draft);
    Silence(x, env, draft);
    hide *;
  }

  lemma TypeMeans(x: Json, types: Types, env: Env, draft: bool)
    ensures Valid(x, Empty.(types := types), env, draft) <==> TypeMet(x, types)
  {
    var s := Empty.(types := types);
    assert Alone(s);
    KeywordByKeyword(x, s, env, draft);
    Silence(x, env, draft);
    hide *;
  }

  lemma BoundsMean(x: Json, most: Option<JsonInt>, below: bool, least: Option<JsonInt>, above: bool, env: Env, draft: bool)
    ensures Valid(x, Empty.(maximum := most, exclusiveMaximum := below, minimum := least, exclusiveMinimum := above), env, draft)
       <==> BoundsMet(x, most, below, least, above, draft)
  {
    var s := Empty.(maximum := most, exclusiveMaximum := below, minimum := least, exclusiveMinimum := above);
    assert Alone(s);
    KeywordByKeyword(x, s, env, draft);
    Silence(x, env, draft);
    hide *;
  }

  lemma LengthMeans(x: Json, least: Option<nat>, most: Option<nat>, env: Env, draft: bool)
    ensures Valid(x, Empty.(minLength := least, maxLength := most), env, draft) <==> LengthMet(x, least, most)
  {
    var s := Empty.(minLength := least, maxLength := most);
    assert Alone(s);
    KeywordByKeyword(x, s, env, draft);
    Silence(x, env, draft);
    hide *;
  }

  lemma PatternMeans(x: Json, pattern: Option<string>, env: Env, draft: bool)
    ensures Valid(x, Empty.(pattern := pattern), env, draft) <==> PatternMet(x, pattern, env)
  {
    var s := Empty.(pattern := pattern);
    assert Alone(s);
    KeywordByKeyword(x, s, env, draft);
    Silence(x, env, draft);
    hide *;
  }

  lemma FormatMeans(x: Json, format: Option<string>, env: Env, draft: bool)
    ensures Valid(x, Empty.(format := format), env, draft) <==> FormatMet(x, format, env, draft)
  {
    var s := Empty.(format := format);
    assert Alone(s);
    KeywordByKeyword(x, s, env, draft);
    Silence(x, env, draft);
    hide *;
  }

  lemma ItemCountMeans(x: Json, least: Option<nat>, most: Option<nat>, env: Env, draft: bool)
    ensures Valid(x, Empty.(minItems := least, maxItems := most), env, draft) <==> ItemCountMet(x, least, most)
  {
    var s := Empty.(minItems := least, maxItems := most);
    assert Alone(s);
    KeywordByKeyword(x, s, env, draft);
    Silence(x, env, draft);
    hide *;
  }

  lemma UniqueItemsMean(x: Json, unique: bool, env: Env, draft: bool)
    ensures Valid(x, Empty.(uniqueItems := unique), env, draft) <==> UniqueMet(x, unique, env, draft)
  {
    var s := Empty.(uniqueItems := unique);
    assert Alone(s);
    KeywordByKeyword(x, s, env, draft);
    Silence(x, env, draft);
    hide *;
  }

  lemma ItemsMean(x: Json, items: Items, others: Additional, env: Env, draft: bool)
    ensures Valid(x, Empty.(items := items, additionalItems := others), env, draft)
       <==> ItemsMet(x, items, others, env, draft)
  {
    var s := Empty.(items := items, additionalItems := others);
    assert Alone(s);
    KeywordByKeyword(x, s, env, draft);
    Silence(x, env, draft);
    hide *;
  }

  lemma MemberCountMeans(x: Json, least: Option<nat>, most: Option<nat>, env: Env, draft: bool)
    ensures Valid(x, Empty.(minProperties := least, maxProperties := most), env, draft)
       <==> MemberCountMet(x, least, most)
  {
    var s := Empty.(minProperties := least, maxProperties := most);
    assert Alone(s);
    KeywordByKeyword(x, s, env, draft);
    Silence(x, env, draft);
    hide *;
  }

  lemma PropertiesMean(x: Json, ps: seq<Property>, patterns: seq<Property>, others: Additional, env: Env, draft: bool)
    ensures Valid(x, Empty.(properties := ps, patternProperties := patterns, additionalProperties := others), env, draft)
       <==> PropertiesMet(x, ps, patterns, others, env, draft)
  {
    var s := Empty.(properties := ps, patternProperties := patterns, additionalProperties := others);
    assert Alone(s);
    KeywordByKeyword(x, s, env, draft);
    Silence(x, env, draft);
    hide *;
  }

  lemma RequiredMeans(x: Json, keys: seq<string>, env: Env, draft: bool)
    ensures Valid(x, Empty.(required := keys), env, draft) <==> RequiredMet(x, keys)
  {
    var s := Empty.(required := keys);
    assert Alone(s);
    KeywordByKeyword(x, s, env, draft);
    Silence(x, env, draft);
    hide *;
  }

  lemma DependenciesMean(x: Json, ds: seq<Dependency>, env: Env, draft: bool)
    ensures Valid(x, Empty.(dependencies := ds), env, draft) <==> DependenciesMet(x, ds, env, draft)
  {
    var s := Empty.(dependencies := ds);
    assert Alone(s);
    KeywordByKeyword(x, s, env, draft);
    Silence(x, env, draft);
    hide *;
  }

  /** And a value is valid exactly if it is for each keyword alone. */
  lemma ValidIsEach(x: Json, s: Schema, env: Env, draft: bool)
    requires draft || Alone(s)
    ensures Valid(x, s, env, draft) <==>
      && Valid(x, Empty.(isNot := s.isNot), env, draft)
      && Valid(x, Empty.(allOf := s.allOf), env, draft)
      && Valid(x, Empty.(anyOf := s.anyOf), env, draft)
      && Valid(x, Empty.(oneOf := s.oneOf), env, draft)
      && Valid(x, Empty.(enumeration := s.enumeration), env, draft)
      && Valid(x, Empty.(types := s.types), env, draft)
      && Valid(x, Empty.(maximum := s.maximum, exclusiveMaximum := s.exclusiveMaximum, minimum := s.minimum, exclusiveMinimum := s.exclusiveMinimum), env, draft)
      && Valid(x, Empty.(minLength := s.minLength, maxLength := s.maxLength), env, draft)
      && Valid(x, Empty.(pattern := s.pattern), env, draft)
      && Valid(x, Empty.(format := s.format), env, draft)
      && Valid(x, Empty.(minItems := s.minItems, maxItems := s.maxItems), env, draft)
      && Valid(x, Empty.(uniqueItems := s.uniqueItems), env, draft)
      && Valid(x, Empty.(items := s.items, additionalItems := s.additionalItems), env, draft)
      && Valid(x, Empty.(minProperties := s.minProperties, maxProperties := s.maxProperties), env, draft)
      && Valid(x, Empty.(properties := s.properties, patternProperties := s.patternProperties, additionalProperties := s.additionalProperties), env, draft)
      && Valid(x, Empty.(required := s.required), env, draft)
      && Valid(x, Empty.(dependencies := s.dependencies), env, draft)
  {
    hide *;
    KeywordByKeyword(x, s, env, draft);
    NotMeans(x, s.isNot, env, draft);
    AllOfMeans(x, s.allOf, env, draft);
    AnyOfMeans(x, s.anyOf, env, draft);
    OneOfMeans(x, s.oneOf, env, draft);
    EnumMeans(x, s.enumeration, env, draft);
    TypeMeans(x, s.types, env, draft);
    BoundsMean(x, s.maximum, s.exclusiveMaximum, s.minimum, s.exclusiveMinimum, env, draft);
    LengthMeans(x, s.minLength, s.maxLength, env, draft);
    PatternMeans(x, s.pattern, env, draft);
    FormatMeans(x, s.format, env, draft);
    ItemCountMeans(x, s.minItems, s.maxItems, env, draft);
    UniqueItemsMean(x, s.uniqueItems, env, draft);
    ItemsMean(x, s.items, s.additionalItems, env, draft);
    MemberCountMeans(x, s.minProperties, s.maxProperties, env, draft);
    PropertiesMean(x, s.properties, s.patternProperties, s.additionalProperties, env, draft);
    RequiredMeans(x, s.required, env, draft);
    DependenciesMean(x, s.dependencies, env, draft);
  }
}
