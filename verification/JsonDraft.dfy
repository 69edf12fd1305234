/** How far the validator is the draft's validity: exactly on what it does not leave unread. */
module JsonDraft {
  import opened JsonValues
  import opened JsonOrder
  import opened JsonSchemas
  import opened JsonNumbers

  /** s without the keywords that the validator leaves unread. */
  function Pruned(s: Schema): Schema
    decreases s, 1
  {
    if s.isNot.Some? then Empty.(isNot := Some(Pruned(s.isNot.value)))
    else s.(allOf := if s.oneOf.Of? || s.anyOf.Of? then Absent else PrunedSeveral(s.allOf),
            anyOf := if s.oneOf.Of? then Absent else PrunedSeveral(s.anyOf),
            oneOf := PrunedSeveral(s.oneOf),
            items := PrunedItems(s.items),
            additionalItems := PrunedAdditional(s.additionalItems),
            properties := PrunedProperties(s.properties),
            patternProperties := PrunedProperties(s.patternProperties),
            additionalProperties := PrunedAdditional(s.additionalProperties),
            dependencies := PrunedDependencies(s.dependencies))
  }

  function PrunedAll(ss: seq<Schema>): (r: seq<Schema>)
    ensures |r| == |ss| && forall i :: 0 <= i < |ss| ==> r[i] == Pruned(ss[i])
    decreases ss, 0
  {
    if ss == [] then [] else [Pruned(ss[0])] + PrunedAll(ss[1..])
  }

  function PrunedItems(items: Items): Items
    decreases items, 0
  {
    match items case NoItems => NoItems case Each(sub) => Each(Pruned(sub)) case Tuple(subs) => Tuple(PrunedAll(subs))
  }

  function PrunedSeveral(l: Several): Several
    decreases l, 0
  {
    match l case Absent => Absent case Of(ss) => Of(PrunedAll(ss))
  }

  function PrunedAdditional(a: Additional): Additional
    decreases a, 0
  {
    match a case Sub(s) => Sub(Pruned(s)) case _ => a
  }

  function PrunedProperties(ps: seq<Property>): (r: seq<Property>)
    ensures |r| == |ps| && forall i :: 0 <= i < |ps| ==> r[i] == Property(ps[i].key, Pruned(ps[i].schema))
    decreases ps, 0
  {
    if ps == [] then [] else [Property(ps[0].key, Pruned(ps[0].schema))] + PrunedProperties(ps[1..])
  }

  function PrunedNeed(n: Need): Need
    decreases n, 0
  {
    match n case NeedsSchema(s) => NeedsSchema(Pruned(s)) case NeedsAll(_) => n
  }

  function PrunedDependencies(ds: seq<Dependency>): (r: seq<Dependency>)
    ensures |r| == |ds| && forall i :: 0 <= i < |ds| ==> r[i] == Dependency(ds[i].key, PrunedNeed(ds[i].need))
    decreases ds, 0
  {
    if ds == [] then [] else [Dependency(ds[0].key, PrunedNeed(ds[0].need))] + PrunedDependencies(ds[1..])
  }

  lemma {:induction false} DescribedPruned(ps: seq<Property>, key: string)
    ensures Described(PrunedProperties(ps), key)
         == match Described(ps, key) case None => None case Some(s) => Some(Pruned(s))
  {
    hide Pruned;
    if ps != [] {
      assert PrunedProperties(ps)[1..] == PrunedProperties(ps[1..]);
      DescribedPruned(ps[1..], key);
    }
  }

  // ---------- conditions on a schema and all below it ----------

  predicate Everywhere(s: Schema, p: Schema -> bool)
    decreases s, 1
  {
    && p(s) && (s.isNot.Some? ==> Everywhere(s.isNot.value, p))
    && EverywhereInSeveral(s.allOf, p) && EverywhereInSeveral(s.anyOf, p) && EverywhereInSeveral(s.oneOf, p)
    && EverywhereInItems(s.items, p)
    && EverywhereInAdditional(s.additionalItems, p) && EverywhereInAdditional(s.additionalProperties, p)
    && EverywhereInProperties(s.properties, p) && EverywhereInProperties(s.patternProperties, p)
    && EverywhereInDependencies(s.dependencies, p)
  }

  predicate EverywhereInAll(ss: seq<Schema>, p: Schema -> bool)
    decreases ss, 0
  {
    forall i :: 0 <= i < |ss| ==> Everywhere(ss[i], p)
  }

  predicate EverywhereInSeveral(l: Several, p: Schema -> bool)
    decreases l, 0
  {
    l.Of? ==> EverywhereInAll(l.schemas, p)
  }

  predicate EverywhereInItems(items: Items, p: Schema -> bool)
    decreases items, 0
  {
    match items case NoItems => true case Each(sub) => Everywhere(sub, p) case Tuple(subs) => EverywhereInAll(subs, p)
  }

  predicate EverywhereInAdditional(a: Additional, p: Schema -> bool)
    decreases a, 0
  {
    a.Sub? ==> Everywhere(a.schema, p)
  }

  predicate EverywhereInProperties(ps: seq<Property>, p: Schema -> bool)
    decreases ps, 0
  {
    forall i :: 0 <= i < |ps| ==> Everywhere(ps[i].schema, p)
  }

  predicate EverywhereInDependencies(ds: seq<Dependency>, p: Schema -> bool)
    decreases ds, 0
  {
    forall i :: 0 <= i < |ds| && ds[i].need.NeedsSchema? ==> Everywhere(ds[i].need.schema, p)
  }

  /** Bounds are compared and values found as the draft has it, a format can be checked, and where
    * values have to be distinct, sets tell whether they are. */
  predicate Checkable(s: Schema, env: Env, settled: bool) {
    && BoundsAreRead(s)
    && (s.enumeration.Some? ==> ListsTwins(s.enumeration.value))
    && (s.format.Some? ==> env.format.Some?)
    && (s.uniqueItems ==> settled)
  }

  /** "not" stands alone, and there is at most one of allOf, anyOf and oneOf. */
  predicate Alone(s: Schema) {
    && (s.isNot.Some? ==> s == Empty.(isNot := s.isNot))
    && (s.anyOf.Of? ==> s.allOf == Absent) && (s.oneOf.Of? ==> s.allOf == Absent && s.anyOf == Absent)
  }

  /** What the validator reads of s can be checked as the draft has it, for every schema in it. */
  predicate ReadsRightly(s: Schema, env: Env, settled: bool) {
    Everywhere(Pruned(s), CheckableWith(env, settled))
  }

  function CheckableWith(env: Env, settled: bool): Schema -> bool {
    s => Checkable(s, env, settled)
  }

  /** Sets are filled by an order, and tell distinct values in every array of x. */
  ghost predicate Settles(x: Json, env: Env) {
    Lawful(env.refuses) && Settled(x)
  }

  // ---------- the validator is the draft on the pruned schema ----------

  /** Where schemas are combined only by the keywords of arrays and objects, those are pruned in place. */
  lemma PrunedParts(s: Schema)
    requires s.isNot == None
    ensures var p := Pruned(s);
            && p.items == PrunedItems(s.items) && p.additionalItems == PrunedAdditional(s.additionalItems)
            && p.properties == PrunedProperties(s.properties) && p.patternProperties == PrunedProperties(s.patternProperties)
            && p.additionalProperties == PrunedAdditional(s.additionalProperties)
            && p.dependencies == PrunedDependencies(s.dependencies)
  {
  }

  lemma EverywhereParts(s: Schema, p: Schema -> bool)
    requires s.isNot == None && Everywhere(Pruned(s), p)
    ensures p(Pruned(s)) && EverywhereInItems(PrunedItems(s.items), p)
    ensures EverywhereInAdditional(PrunedAdditional(s.additionalItems), p)
    ensures EverywhereInAdditional(PrunedAdditional(s.additionalProperties), p)
    ensures EverywhereInProperties(PrunedProperties(s.properties), p)
    ensures EverywhereInProperties(PrunedProperties(s.patternProperties), p)
    ensures EverywhereInDependencies(PrunedDependencies(s.dependencies), p)
  {
    hide Pruned;
    PrunedParts(s);
  }

  ghost predicate Implies(p: Schema -> bool, env: Env, settled: bool) {
    forall s :: p(s) ==> Checkable(s, env, settled)
  }

  lemma {:induction false} ReadsAgree(x: Json, s: Schema, env: Env, p: Schema -> bool, settled: bool)
    requires Everywhere(Pruned(s), p) && Implies(p, env, settled)
    requires settled ==> Settles(x, env)
    ensures Valid(x, s, env, false) == Valid(x, Pruned(s), env, true)
    decreases s, 5
  {
    if s.isNot.Some? {
      ReadsAgree(x, s.isNot.value, env, p, settled);
      EmptyHolds(x, Pruned(s.isNot.value), env);
    } else {
      if s.oneOf.Of? {
        SeveralAgree(x, s.oneOf, env, p, settled);
      } else if s.anyOf.Of? {
        SeveralAgree(x, s.anyOf, env, p, settled);
      } else {
        SeveralAgree(x, s.allOf, env, p, settled);
      }
      PlainlyAgree(x, s, env, p, settled);
      hide Pruned;
    }
  }

  lemma EmptyHolds(x: Json, n: Schema, env: Env)
    ensures Plainly(x, Empty.(isNot := Some(n)), env, true)
  {
    if x.Obj? {
      forall i | 0 <= i < |x.members| ensures MemberHolds(x.members[i], Empty.(isNot := Some(n)), env, true) {
      }
    }
  }

  lemma {:induction false} SeveralAgree(x: Json, l: Several, env: Env, p: Schema -> bool, settled: bool)
    requires EverywhereInSeveral(PrunedSeveral(l), p) && Implies(p, env, settled)
    requires settled ==> Settles(x, env)
    ensures l.Of? ==> Results(x, l.schemas, env, false) == Results(x, PrunedSeveral(l).schemas, env, true)
    decreases l, 0
  {
    if l.Of? {
      forall i | 0 <= i < |l.schemas|
        ensures Valid(x, l.schemas[i], env, false) == Valid(x, PrunedAll(l.schemas)[i], env, true)
      {
        assert Everywhere(PrunedAll(l.schemas)[i], p);
        ReadsAgree(x, l.schemas[i], env, p, settled);
      }
    }
  }

  lemma {:induction false} AdditionalAgree(x: Json, a: Additional, env: Env, p: Schema -> bool, settled: bool)
    requires EverywhereInAdditional(PrunedAdditional(a), p) && Implies(p, env, settled)
    requires settled ==> Settles(x, env)
    ensures AdditionalHolds(x, a, env, false) == AdditionalHolds(x, PrunedAdditional(a), env, true)
    decreases a, 0
  {
    if a.Sub? {
      ReadsAgree(x, a.schema, env, p, settled);
    }
  }

  lemma {:induction false} PlainlyAgree(x: Json, s: Schema, env: Env, p: Schema -> bool, settled: bool)
    requires s.isNot == None && Everywhere(Pruned(s), p) && Implies(p, env, settled)
    requires settled ==> Settles(x, env)
    ensures Plainly(x, s, env, false) == Plainly(x, Pruned(s), env, true)
    decreases s, 4
  {
    hide Valid, ArrayHolds, ObjectHolds, Everywhere, NumberHolds, WithinBounds, BoundsAreRead, ListsTwins, Contains;
    EverywhereParts(s, p);
    assert Checkable(Pruned(s), env, settled);
    EnumAgrees(x, Pruned(s).enumeration);
    match x {
      case Arr(xs) => ArrayAgrees(xs, s, env, p, settled);
      case Obj(members) => ObjectAgrees(members, s, env, p, settled);
      case Int(n) => NumberAgrees(n, s);
      case _ =>
    }
  }

  lemma EnumAgrees(x: Json, enumeration: Option<seq<Json>>)
    requires enumeration.Some? ==> ListsTwins(enumeration.value)
    ensures enumeration.Some? ==> (Contains(enumeration.value, x) <==> x in enumeration.value)
  {
    if enumeration.Some? {
      ContainsIsIn(enumeration.value);
    }
  }

  lemma NumberAgrees(n: JsonInt, s: Schema)
    requires s.isNot == None && BoundsAreRead(Pruned(s))
    ensures NumberHolds(n, s) == WithinBounds(n, Pruned(s))
  {
    RightWhereRead(n, s);
  }

  lemma {:induction false} ArrayAgrees(xs: seq<Json>, s: Schema, env: Env, p: Schema -> bool, settled: bool)
    requires s.isNot == None && Everywhere(Pruned(s), p) && Implies(p, env, settled)
    requires settled ==> Settles(Arr(xs), env)
    ensures ArrayHolds(xs, s, env, false) == ArrayHolds(xs, Pruned(s), env, true)
    decreases s, 3
  {
    hide ItemHolds, Everywhere, Settles, Unique, AllDistinct, BoundsAreRead, ListsTwins;
    EverywhereParts(s, p);
    if s.uniqueItems {
      UniqueAgrees(xs, env);
    }
    forall i | 0 <= i < |xs| ensures ItemHolds(xs[i], i, s, env, false) == ItemHolds(xs[i], i, Pruned(s), env, true) {
      if settled {
        SettlesItem(xs, i, env);
      }
      ItemAgrees(xs[i], i, s, env, p, settled);
    }
  }

  lemma UniqueAgrees(xs: seq<Json>, env: Env)
    requires Settles(Arr(xs), env)
    ensures Unique(xs, env.refuses) == AllDistinct(xs)
  {
    hide Unique, AllDistinct, Lawful, Ordered, Tells;
    UniqueTells(xs, env.refuses);
  }

  lemma SettlesItem(xs: seq<Json>, i: nat, env: Env)
    requires i < |xs| && Settles(Arr(xs), env)
    ensures Settles(xs[i], env)
  {
    hide Lawful, Ordered, Tells;
    assert SettledItems(xs);
  }

  lemma {:induction false} ObjectAgrees(members: seq<Member>, s: Schema, env: Env, p: Schema -> bool, settled: bool)
    requires s.isNot == None && Everywhere(Pruned(s), p) && Implies(p, env, settled)
    requires settled ==> Settles(Obj(members), env)
    ensures ObjectHolds(members, s, env, false) == ObjectHolds(members, Pruned(s), env, true)
    decreases s, 3
  {
    hide MemberHolds, NeedHolds, Everywhere;
    EverywhereParts(s, p);
    forall i | 0 <= i < |members|
      ensures MemberHolds(members[i], s, env, false) == MemberHolds(members[i], Pruned(s), env, true)
    {
      MemberAgrees(members[i], s, env, p, settled);
    }
    forall i | 0 <= i < |s.dependencies|
      ensures NeedHolds(members, s.dependencies[i].need, env, false)
           == NeedHolds(members, PrunedNeed(s.dependencies[i].need), env, true)
    {
      assert PrunedDependencies(s.dependencies)[i].need == PrunedNeed(s.dependencies[i].need);
      NeedAgrees(members, s.dependencies[i].need, env, p, settled);
    }
  }

  lemma {:induction false} ItemAgrees(x: Json, i: nat, s: Schema, env: Env, p: Schema -> bool, settled: bool)
    requires s.isNot == None && Everywhere(Pruned(s), p) && Implies(p, env, settled)
    requires settled ==> Settles(x, env)
    ensures ItemHolds(x, i, s, env, false) == ItemHolds(x, i, Pruned(s), env, true)
    decreases s, 2
  {
    hide Valid, AdditionalHolds, Pruned, Everywhere;
    PrunedParts(s);
    EverywhereParts(s, p);
    match s.items {
      case NoItems =>
      case Each(sub) => ReadsAgree(x, sub, env, p, settled);
      case Tuple(subs) =>
        if i < |subs| {
          assert Everywhere(PrunedAll(subs)[i], p);
          ReadsAgree(x, subs[i], env, p, settled);
        } else {
          AdditionalAgree(x, s.additionalItems, env, p, settled);
        }
    }
  }

  lemma {:induction false} NeedAgrees(members: seq<Member>, n: Need, env: Env, p: Schema -> bool, settled: bool)
    requires n.NeedsSchema? ==> Everywhere(PrunedNeed(n).schema, p)
    requires Implies(p, env, settled)
    requires settled ==> Settles(Obj(members), env)
    ensures NeedHolds(members, n, env, false) == NeedHolds(members, PrunedNeed(n), env, true)
    decreases n, 0
  {
    if n.NeedsSchema? {
      ReadsAgree(Obj(members), n.schema, env, p, settled);
    }
  }

  lemma {:induction false} PatternAgrees(m: Member, q: Property, env: Env, p: Schema -> bool, settled: bool)
    requires Everywhere(Pruned(q.schema), p) && Implies(p, env, settled)
    requires settled ==> Settles(m.value, env)
    ensures PatternHolds(m, q, env, false) == PatternHolds(m, Property(q.key, Pruned(q.schema)), env, true)
    decreases q, 0
  {
    ReadsAgree(m.value, q.schema, env, p, settled);
  }

  lemma {:induction false} DescribedEverywhere(ps: seq<Property>, key: string, p: Schema -> bool)
    requires EverywhereInProperties(PrunedProperties(ps), p) && Described(ps, key).Some?
    ensures Everywhere(Pruned(Described(ps, key).value), p)
  {
    var q :| q in ps && q.schema == Described(ps, key).value;
    var i :| 0 <= i < |ps| && ps[i] == q;
    assert PrunedProperties(ps)[i].schema == Pruned(q.schema);
  }

  lemma {:induction false} MemberAgrees(m: Member, s: Schema, env: Env, p: Schema -> bool, settled: bool)
    requires s.isNot == None && Everywhere(Pruned(s), p) && Implies(p, env, settled)
    requires settled ==> Settles(m.value, env)
    ensures MemberHolds(m, s, env, false) == MemberHolds(m, Pruned(s), env, true)
    decreases s, 2
  {
    hide Valid, PatternHolds, AdditionalHolds, Pruned, PrunedAdditional, PrunedProperties, Described, Everywhere;
    var pruned := Pruned(s);
    PrunedParts(s);
    EverywhereParts(s, p);
    DescribedPruned(s.properties, m.key);
    var d := Described(s.properties, m.key);
    assert d.Some? ==> Valid(m.value, d.value, env, false) == Valid(m.value, Pruned(d.value), env, true) by {
      if d.Some? {
        DescribedEverywhere(s.properties, m.key, p);
        ReadsAgree(m.value, d.value, env, p, settled);
      }
    }
    assert forall i :: 0 <= i < |s.patternProperties| ==>
      PatternHolds(m, s.patternProperties[i], env, false) == PatternHolds(m, pruned.patternProperties[i], env, true) by
    {
      forall i | 0 <= i < |s.patternProperties|
        ensures PatternHolds(m, s.patternProperties[i], env, false)
             == PatternHolds(m, pruned.patternProperties[i], env, true)
      {
        assert Everywhere(pruned.patternProperties[i].schema, p);
        PatternAgrees(m, s.patternProperties[i], env, p, settled);
      }
    }
    assert Undescribed(m, s, env) == Undescribed(m, pruned, env);
    assert AdditionalHolds(m.value, s.additionalProperties, env, false)
        == AdditionalHolds(m.value, pruned.additionalProperties, env, true) by {
      AdditionalAgree(m.value, s.additionalProperties, env, p, settled);
    }
    hide Undescribed;
  }

  /** Where every schema that the validator reads can be checked as the draft has it, the validator is
    * the draft's validity of what it reads. */
  lemma PrunedIsRead(x: Json, s: Schema, env: Env, settled: bool)
    requires ReadsRightly(s, env, settled) && (settled ==> Settles(x, env))
    ensures Valid(x, s, env, false) == Valid(x, Pruned(s), env, true)
  {
    ReadsAgree(x, s, env, CheckableWith(env, settled), settled);
  }

  // ---------- schemas of which every keyword is read ----------

  /** Here and below, nothing hides another keyword. */
  predicate Plain(s: Schema) {
    Everywhere(s, Alone)
  }

  lemma {:induction false} PlainIsPruned(s: Schema)
    requires Plain(s)
    ensures Pruned(s) == s
    decreases s, 1
  {
    if s.isNot.Some? {
      PlainIsPruned(s.isNot.value);
    } else {
      PlainSeveralIsPruned(s.allOf);
      PlainSeveralIsPruned(s.anyOf);
      PlainSeveralIsPruned(s.oneOf);
      PlainItemsArePruned(s.items);
      PlainAdditionalIsPruned(s.additionalItems);
      PlainAdditionalIsPruned(s.additionalProperties);
      PlainPropertiesArePruned(s.properties);
      PlainPropertiesArePruned(s.patternProperties);
      PlainDependenciesArePruned(s.dependencies);
    }
  }

  lemma {:induction false} PlainItemsArePruned(items: Items)
    requires EverywhereInItems(items, Alone)
    ensures PrunedItems(items) == items
    decreases items, 0
  {
    match items {
      case NoItems =>
      case Each(sub) => PlainIsPruned(sub);
      case Tuple(subs) => PlainAllIsPruned(subs);
    }
  }

  lemma {:induction false} PlainAllIsPruned(ss: seq<Schema>)
    requires EverywhereInAll(ss, Alone)
    ensures PrunedAll(ss) == ss
    decreases ss, 0
  {
    forall i | 0 <= i < |ss| ensures Pruned(ss[i]) == ss[i] {
      PlainIsPruned(ss[i]);
    }
  }

  lemma {:induction false} PlainSeveralIsPruned(l: Several)
    requires EverywhereInSeveral(l, Alone)
    ensures PrunedSeveral(l) == l
    decreases l, 0
  {
    if l.Of? {
      PlainAllIsPruned(l.schemas);
    }
  }

  lemma {:induction false} PlainAdditionalIsPruned(a: Additional)
    requires EverywhereInAdditional(a, Alone)
    ensures PrunedAdditional(a) == a
    decreases a, 0
  {
    if a.Sub? {
      PlainIsPruned(a.schema);
    }
  }

  lemma {:induction false} PlainPropertiesArePruned(ps: seq<Property>)
    requires EverywhereInProperties(ps, Alone)
    ensures PrunedProperties(ps) == ps
    decreases ps, 0
  {
    forall i | 0 <= i < |ps| ensures Pruned(ps[i].schema) == ps[i].schema {
      PlainIsPruned(ps[i].schema);
    }
  }

  lemma {:induction false} PlainDependenciesArePruned(ds: seq<Dependency>)
    requires EverywhereInDependencies(ds, Alone)
    ensures PrunedDependencies(ds) == ds
    decreases ds, 0
  {
    forall i | 0 <= i < |ds| ensures PrunedNeed(ds[i].need) == ds[i].need {
      if ds[i].need.NeedsSchema? {
        PlainIsPruned(ds[i].need.schema);
      }
    }
  }

  /** On such schemas, the validator is the draft's validity. */
  lemma PlainIsDraft(x: Json, s: Schema, env: Env, settled: bool)
    requires Plain(s) && Everywhere(s, CheckableWith(env, settled)) && (settled ==> Settles(x, env))
    ensures Valid(x, s, env, false) == Valid(x, s, env, true)
  {
    PlainIsPruned(s);
    PrunedIsRead(x, s, env, settled);
  }

  /** The condition on bounds cannot be weakened: with bounds alone, it is exact. */
  lemma BoundsAreNeeded(maximum: Option<JsonInt>, atMaximum: bool, minimum: Option<JsonInt>, atMinimum: bool, env: Env)
    ensures var s := Empty.(maximum := maximum, exclusiveMaximum := atMaximum, minimum := minimum, exclusiveMinimum := atMinimum);
            (forall x :: Valid(x, s, env, false) == Valid(x, s, env, true)) <==> BoundsAreRead(s)
  {
    var s := Empty.(maximum := maximum, exclusiveMaximum := atMaximum, minimum := minimum, exclusiveMinimum := atMinimum);
    if BoundsAreRead(s) {
      forall x ensures Valid(x, s, env, false) == Valid(x, s, env, true) {
        NothingBelow(s, env, false);
        PlainIsDraft(x, s, env, false);
      }
    } else {
      WrongAtWitness(s);
      var n: JsonInt := Witness(s);
      NumberAlone(n, s, env);
    }
  }

  lemma NothingBelow(s: Schema, env: Env, settled: bool)
    requires s.isNot == None && s.allOf == s.anyOf == s.oneOf == Absent && s.items == NoItems
    requires s.additionalItems == s.additionalProperties == Unsaid
    requires s.properties == s.patternProperties == [] && s.dependencies == []
    ensures Plain(s) && (Checkable(s, env, settled) ==> Everywhere(s, CheckableWith(env, settled)))
  {
    hide BoundsAreRead;
    NoParts(Alone);
    NoParts(CheckableWith(env, settled));
  }

  lemma NoParts(p: Schema -> bool)
    ensures EverywhereInSeveral(Absent, p) && EverywhereInItems(NoItems, p) && EverywhereInAdditional(Unsaid, p)
    ensures EverywhereInProperties([], p) && EverywhereInDependencies([], p)
  {
  }

  lemma NumberAlone(n: JsonInt, s: Schema, env: Env)
    requires s.isNot == None && s.allOf == s.anyOf == s.oneOf == Absent && s.enumeration == None && s.types == AnyType
    ensures Valid(Int(n), s, env, false) == NumberHolds(n, s) && Valid(Int(n), s, env, true) == WithinBounds(n, s)
  {
    hide NumberHolds, WithinBounds;
  }

  /** Nor can the condition on formats. */
  lemma CheckerIsNeeded(format: string, env: Env)
    ensures var s := Empty.(format := Some(format));
            (forall x :: Valid(x, s, env, false) == Valid(x, s, env, true)) <==> env.format.Some?
  {
    var s := Empty.(format := Some(format));
    if env.format.Some? {
      forall x ensures Valid(x, s, env, false) == Valid(x, s, env, true) {
        NothingBelow(s, env, false);
        PlainIsDraft(x, s, env, false);
      }
    } else {
      FailsUnchecked(format, env);
      hide *;
      assert Valid(Str(""), s, env, false) != Valid(Str(""), s, env, true);
    }
  }

  lemma FailsUnchecked(format: string, env: Env)
    requires env.format == None
    ensures var s := Empty.(format := Some(format)); !Valid(Str(""), s, env, false) && Valid(Str(""), s, env, true)
  {
    hide Length;
  }

  /** Nor that on enum: it is read as the draft has it exactly if everything equal to a listed value
    * is listed. */
  lemma TwinsAreNeeded(values: seq<Json>, env: Env)
    ensures var s := Empty.(enumeration := Some(values));
            (forall x :: Valid(x, s, env, false) == Valid(x, s, env, true)) <==> ListsTwins(values)
  {
    hide *;
    var s := Empty.(enumeration := Some(values));
    ContainsIsIn(values);
    if ListsTwins(values) {
      forall x ensures Valid(x, s, env, false) == Valid(x, s, env, true) {
        EnumAlone(x, values, env, false);
        EnumAlone(x, values, env, true);
      }
    } else {
      var x :| Contains(values, x) != (x in values);
      EnumAlone(x, values, env, false);
      EnumAlone(x, values, env, true);
      assert Valid(x, s, env, false) != Valid(x, s, env, true);
    }
  }

  lemma EnumAlone(x: Json, values: seq<Json>, env: Env, draft: bool)
    ensures var s := Empty.(enumeration := Some(values));
            Valid(x, s, env, draft) <==> if draft then x in values else Contains(values, x)
  {
    hide Length, Contains;
    var s := Empty.(enumeration := Some(values));
    match x {
      case Obj(members) =>
        forall i | 0 <= i < |members| ensures MemberHolds(members[i], s, env, draft) {
        }
        assert ObjectHolds(members, s, env, draft);
      case Arr(xs) =>
        forall i | 0 <= i < |xs| ensures ItemHolds(xs[i], i, s, env, draft) {
        }
        assert ArrayHolds(xs, s, env, draft);
      case _ =>
    }
  }

  /** An array has distinct items to the validator as the draft has it exactly if the set tells that. */
  lemma DistinctIff(xs: seq<Json>, env: Env)
    requires Lawful(env.refuses) && Ordered(xs)
    ensures var s := Empty.(uniqueItems := true);
            Valid(Arr(xs), s, env, false) == Valid(Arr(xs), s, env, true) <==> Tells(xs)
  {
    UniqueAlone(xs, env);
    UniqueTells(xs, env.refuses);
    hide *;
  }

  lemma UniqueAlone(xs: seq<Json>, env: Env)
    ensures var s := Empty.(uniqueItems := true);
            && (Valid(Arr(xs), s, env, false) <==> Unique(xs, env.refuses))
            && (Valid(Arr(xs), s, env, true) <==> AllDistinct(xs))
  {
    hide Unique, AllDistinct;
  }

  /** 2^64 - 1 in enum lets -1 pass, and as a minimum to be exceeded 5; and uniqueItems refuses an
    * array of -1 and 2^64 - 1. */
  lemma WrongTwins(env: Env)
    requires Lawful(env.refuses)
    ensures var top := Two64 - 1; var s := Empty.(enumeration := Some([Int(top)]));
            Valid(Int(-1), s, env, false) && !Valid(Int(-1), s, env, true)
    ensures var top := Two64 - 1; var s := Empty.(minimum := Some(top), exclusiveMinimum := true);
            Valid(Int(5), s, env, false) && !Valid(Int(5), s, env, true)
    ensures var xs := [Int(-1), Int(Two64 - 1)]; var s := Empty.(uniqueItems := true);
            !Valid(Arr(xs), s, env, false) && Valid(Arr(xs), s, env, true)
  {
    var top := Two64 - 1;
    EnumAlone(Int(-1), [Int(top)], env, false);
    EnumAlone(Int(-1), [Int(top)], env, true);
    assert Equal([Int(top)][0], Int(-1));
    NumberAlone(5, Empty.(minimum := Some(top), exclusiveMinimum := true), env);
    UniqueAlone([Int(-1), Int(top)], env);
    TwinsAreRefused(env.refuses);
    hide Valid, Unique, AllDistinct;
  }

  /** Beside "not", other keywords go unread. */
  lemma NotHidesTheRest(env: Env)
    ensures var s := Empty.(isNot := Some(Empty.(types := OneType("string"))), types := OneType("boolean"));
            Valid(Null, s, env, false) && !Valid(Null, s, env, true)
  {
    var sub := Empty.(types := OneType("string"));
    assert !Plainly(Null, sub, env, false) && !Plainly(Null, sub, env, true);
    assert !Valid(Null, sub, env, false) && !Valid(Null, sub, env, true);
  }

  /** Beside anyOf, allOf goes unread. */
  lemma AnyOfHidesAllOf(env: Env)
    ensures var s := Empty.(allOf := Of([Empty.(types := OneType("string"))]), anyOf := Of([Empty]));
            Valid(Null, s, env, false) && !Valid(Null, s, env, true)
  {
    var sub := Empty.(types := OneType("string"));
    assert !Plainly(Null, sub, env, true) && !Valid(Null, sub, env, true);
    assert Plainly(Null, Empty, env, false) && Valid(Null, Empty, env, false);
    assert !Results(Null, [sub], env, true)[0];
    assert Results(Null, [Empty], env, false)[0];
  }
}
