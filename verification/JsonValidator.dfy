/** The validator: a walk that gives up at the first keyword that fails. */
module JsonValidator {
  import opened JsonValues
  import opened JsonOrder
  import opened JsonSchemas
  import XmlUtf8

  // Every method returns whether it ended normally; false stands for an exception.

  method ValidateType(s: Schema, expected: string) returns (ok: bool)
    ensures ok == TypeHolds(s.types, expected)
  {
    NamedTypes(s.types, expected);
    match s.types {
      case AnyType => return true;
      case SomeTypes(names) => return expected in names || (expected == "integer" && "number" in names);
      case OneType(name) => return name == expected || (name == "number" && expected == "integer");
    }
  }

  lemma NamedTypes(types: Types, name: string)
    ensures TypeHolds(types, name)
       <==> types.AnyType? || name in Named(types) || (name == "integer" && "number" in Named(types))
  {
    var both := Named(types) * TypesOf(name);
    if both != {} {
      var t :| t in both;
      assert t == name || t == "number";
    }
    if name in Named(types) {
      assert name in both;
    }
    if name == "integer" && "number" in Named(types) {
      assert "number" in both;
    }
  }

  /** `find` among the values listed. */
  method ValidateEnum(x: Json, s: Schema) returns (ok: bool)
    ensures ok == (s.enumeration.Some? ==> Contains(s.enumeration.value, x))
  {
    if s.enumeration == None {
      return true;
    }
    var listed := s.enumeration.value;
    for i := 0 to |listed|
      invariant forall j :: 0 <= j < i ==> !Equal(listed[j], x)
    {
      if Equal(listed[i], x) {
        return true;
      }
    }
    return false;
  }

  /** `validate_numeric` on 64 bits, signed or unsigned. */
  method ValidateNumeric(n: JsonInt, s: Schema, unsigned: bool) returns (ok: bool)
    ensures ok == (Below(Image(n, unsigned), ImageOf(s.maximum, unsigned), s.exclusiveMaximum)
                   && Above(Image(n, unsigned), ImageOf(s.minimum, unsigned), s.exclusiveMinimum))
  {
    var value := Image(n, unsigned);
    if s.maximum.Some? {
      var maxi := Image(s.maximum.value, unsigned);
      if if s.exclusiveMaximum then value >= maxi else value > maxi {
        return false;
      }
    }
    if s.minimum.Some? {
      var mini := Image(s.minimum.value, unsigned);
      if if s.exclusiveMinimum then value <= mini else value < mini {
        return false;
      }
    }
    return true;
  }

  method ValidateNumber(n: JsonInt, s: Schema) returns (ok: bool)
    ensures ok == (TypeHolds(s.types, "integer") && NumberHolds(n, s))
  {
    ok := ValidateType(s, "integer");
    if !ok {
      return false;
    }
    if n >= 0 && s.minimum.Some? && Signed64(s.minimum.value) >= 0 {
      ok := ValidateNumeric(n, s, true);
    } else {
      ok := ValidateNumeric(n, s, false);
    }
  }

  method ValidateString(t: string, s: Schema, env: Env) returns (ok: bool)
    ensures ok == (TypeHolds(s.types, "string") && StringHolds(t, s, env, false))
  {
    ok := ValidateType(s, "string");
    if !ok {
      return false;
    }
    var length := XmlUtf8.CountUtf8(Bytes(t));
    if s.minLength.Some? && length < s.minLength.value {
      return false;
    }
    if s.maxLength.Some? && length > s.maxLength.value {
      return false;
    }
    if s.pattern.Some? && env.search(s.pattern.value, t) != Some(true) {
      return false;
    }
    if s.format.Some? {
      if env.format == None {
        return false;
      }
      return env.format.value(s.format.value, t);
    }
    return true;
  }

  method Validate(x: Json, s: Schema, env: Env) returns (ok: bool)
    ensures ok == Valid(x, s, env, false)
    decreases s, 5
  {
    if s.isNot.Some? {
      var matches := Validate(x, s.isNot.value, env);
      return !matches;
    }
    ok := ValidateCombined(x, s, env);
    if !ok {
      return false;
    }
    ok := ValidatePlainly(x, s, env);
  }

  datatype Logic = NoLogic | AllOf | AnyOf | OneOf

  /** allOf, anyOf and oneOf: each that is there takes the place of the one before. */
  method ValidateCombined(x: Json, s: Schema, env: Env) returns (ok: bool)
    ensures ok == if s.oneOf.Of? then One(Results(x, s.oneOf.schemas, env, false))
                  else if s.anyOf.Of? then Any(Results(x, s.anyOf.schemas, env, false))
                  else s.allOf.Of? ==> All(Results(x, s.allOf.schemas, env, false))
    decreases s, 4
  {
    var logic, combined := NoLogic, [];
    if s.allOf.Of? {
      logic, combined := AllOf, s.allOf.schemas;
    }
    if s.anyOf.Of? {
      logic, combined := AnyOf, s.anyOf.schemas;
    }
    if s.oneOf.Of? {
      logic, combined := OneOf, s.oneOf.schemas;
    }
    if logic == NoLogic {
      return true;
    }
    ok := ValidateEach(x, combined, logic, env);
  }

  /** Counts the schemas that hold, and stops when the outcome is certain. */
  method ValidateEach(x: Json, combined: seq<Schema>, logic: Logic, env: Env) returns (ok: bool)
    requires logic != NoLogic
    ensures ok == match logic
                  case AllOf => All(Results(x, combined, env, false))
                  case AnyOf => Any(Results(x, combined, env, false))
                  case _ => One(Results(x, combined, env, false))
    decreases combined, 1
  {
    hide All, Any, One, Valid, Results;
    ghost var results := Results(x, combined, env, false);
    NoneYet(results);
    var count: nat := 0;
    for i := 0 to |combined|
      invariant logic == AllOf ==> All(results[..i])
      invariant logic == OneOf ==> count <= 1
      invariant count >= 1 <==> Any(results[..i])
      invariant count == 1 ==> One(results[..i])
    {
      OneMore(results, i);
      ResultAt(x, combined, env, i);
      var holds := Validate(x, combined[i], env);
      if holds {
        count := count + 1;
      } else if logic == AllOf {
        return false;
      }
      if logic == OneOf && count > 1 {
        return false;
      }
    }
    assert results[..|combined|] == results;
    if (logic == AnyOf || logic == OneOf) && count == 0 {
      return false;
    }
    return true;
  }

  lemma NoneYet(results: seq<bool>)
    ensures All(results[..0]) && !Any(results[..0]) && (One(results) ==> Any(results))
  {
  }

  lemma ResultAt(x: Json, subs: seq<Schema>, env: Env, i: nat)
    requires i < |subs|
    ensures Results(x, subs, env, false)[i] == Valid(x, subs[i], env, false)
  {
  }

  /** What one more result does to the three ways to combine them. */
  lemma OneMore(results: seq<bool>, i: nat)
    requires i < |results|
    ensures All(results[..i + 1]) == (All(results[..i]) && results[i])
    ensures Any(results[..i + 1]) == (Any(results[..i]) || results[i])
    ensures One(results[..i + 1]) == if results[i] then !Any(results[..i]) else One(results[..i])
    ensures !results[i] ==> !All(results)
    ensures results[i] && Any(results[..i]) ==> !One(results)
  {
    var now, was := results[..i + 1], results[..i];
    assert now == was + [results[i]];
    OneBehind(was, results[i]);
  }

  lemma OneBehind(was: seq<bool>, last: bool)
    ensures All(was + [last]) == (All(was) && last)
    ensures Any(was + [last]) == (Any(was) || last)
    ensures One(was + [last]) == if last then !Any(was) else One(was)
  {
    AllAndAny(was, last);
    LastIsOne(was);
    LastIsNot(was);
    hide *;
  }

  lemma AllAndAny(was: seq<bool>, last: bool)
    ensures All(was + [last]) == (All(was) && last)
    ensures Any(was + [last]) == (Any(was) || last)
  {
    var now, i := was + [last], |was|;
    assert now[i] == last;
    assert forall j :: 0 <= j < i ==> now[j] == was[j];
  }

  lemma LastIsOne(was: seq<bool>)
    ensures One(was + [true]) == !Any(was)
  {
    var now, i := was + [true], |was|;
    assert now[i] && forall j :: 0 <= j < i ==> now[j] == was[j];
    assert !Any(was) ==> forall j :: 0 <= j < |now| && j != i ==> !now[j];
  }

  lemma LastIsNot(was: seq<bool>)
    ensures One(was + [false]) == One(was)
  {
    var now, i := was + [false], |was|;
    assert !now[i] && forall j :: 0 <= j < i ==> now[j] == was[j];
    if One(was) {
      var k :| 0 <= k < |was| && was[k] && forall j :: 0 <= j < |was| && j != k ==> !was[j];
      assert now[k];
    }
    if One(now) {
      var k :| 0 <= k < |now| && now[k] && forall j :: 0 <= j < |now| && j != k ==> !now[j];
      assert was[k];
    }
  }

  method ValidatePlainly(x: Json, s: Schema, env: Env) returns (ok: bool)
    ensures ok == Plainly(x, s, env, false)
    decreases s, 4
  {
    ok := ValidateEnum(x, s);
    if !ok {
      return false;
    }
    match x {
      case Obj(members) => ok := ValidateObject(members, s, env);
      case Arr(xs) => ok := ValidateArray(xs, s, env);
      case Str(t) => ok := ValidateString(t, s, env);
      case Int(n) => ok := ValidateNumber(n, s);
      case Bool(_) => ok := ValidateType(s, "boolean");
      case Null => ok := ValidateType(s, "null");
    }
  }

  method ValidateArray(xs: seq<Json>, s: Schema, env: Env) returns (ok: bool)
    ensures ok == (TypeHolds(s.types, "array") && ArrayHolds(xs, s, env, false))
    decreases s, 3
  {
    ok := ValidateType(s, "array");
    if !ok {
      return false;
    }
    if s.maxItems.Some? && |xs| > s.maxItems.value {
      return false;
    }
    if s.minItems.Some? && |xs| < s.minItems.value {
      return false;
    }
    if s.uniqueItems {
      ok := ValidateUnique(xs, env);
      if !ok {
        return false;
      }
    }
    ok := ValidateItems(xs, s, env);
  }

  /** Puts the items into a set until one is refused. */
  method ValidateUnique(xs: seq<Json>, env: Env) returns (ok: bool)
    ensures ok == Unique(xs, env.refuses)
  {
    var seen: seq<Json> := [];
    for i := 0 to |xs|
      invariant seen == xs[..i]
      invariant forall j :: 0 <= j < i ==> !env.refuses(xs[..j], xs[j])
    {
      if env.refuses(seen, xs[i]) {
        return false;
      }
      seen := seen + [xs[i]];
    }
    return true;
  }

  /** Items one by one; "additionalItems": true ends the walk. */
  method ValidateItems(xs: seq<Json>, s: Schema, env: Env) returns (ok: bool)
    ensures ok == forall i :: 0 <= i < |xs| ==> ItemHolds(xs[i], i, s, env, false)
    decreases s, 2
  {
    var done := false;
    for i := 0 to |xs|
      invariant !done
      invariant forall j :: 0 <= j < i ==> ItemHolds(xs[j], j, s, env, false)
    {
      match s.items {
        case Tuple(subs) =>
          if i < |subs| {
            ok := Validate(xs[i], subs[i], env);
            if !ok {
              return false;
            }
          } else {
            match s.additionalItems {
              case Sub(sub) =>
                ok := Validate(xs[i], sub, env);
                if !ok {
                  return false;
                }
              case Flag(allowed) =>
                if !allowed {
                  assert !ItemHolds(xs[i], i, s, env, false);
                  return false;
                } else {
                  done := true;
                }
              case Unsaid =>
            }
          }
        case Each(sub) =>
          ok := Validate(xs[i], sub, env);
          if !ok {
            return false;
          }
        case NoItems =>
      }
      if done {
        return true;
      }
    }
    return true;
  }

  method HasKey(members: seq<Member>, key: string) returns (found: bool)
    ensures found == Has(members, key)
  {
    var values := Find(members, key);
    assert values != [] ==> Member(key, values[0]) in members;
    return values != [];
  }

  method ValidateObject(members: seq<Member>, s: Schema, env: Env) returns (ok: bool)
    ensures ok == (TypeHolds(s.types, "object") && ObjectHolds(members, s, env, false))
    decreases s, 3
  {
    ok := ValidateType(s, "object");
    if !ok {
      return false;
    }
    if s.maxProperties.Some? && |members| > s.maxProperties.value {
      return false;
    }
    if s.minProperties.Some? && |members| < s.minProperties.value {
      return false;
    }
    for i := 0 to |members|
      invariant forall j :: 0 <= j < i ==> MemberHolds(members[j], s, env, false)
    {
      ok := ValidateMember(members[i], s, env);
      if !ok {
        return false;
      }
    }
    ok := ValidateRequired(members, s.required);
    if !ok {
      return false;
    }
    ok := ValidateDependencies(members, s, env);
  }

  /** A member against its property, all patterns it matches, or else what is said of the others. */
  method ValidateMember(m: Member, s: Schema, env: Env) returns (ok: bool)
    ensures ok == MemberHolds(m, s, env, false)
    decreases s, 2
  {
    var described := Described(s.properties, m.key);
    var validated := false;
    if described.Some? {
      ok := Validate(m.value, described.value, env);
      if !ok {
        return false;
      }
      validated := true;
    }
    for i := 0 to |s.patternProperties|
      invariant forall j :: 0 <= j < i ==> PatternHolds(m, s.patternProperties[j], env, false)
      invariant validated == (described.Some? || exists j :: 0 <= j < i && env.search(s.patternProperties[j].key, m.key) == Some(true))
    {
      var found := env.search(s.patternProperties[i].key, m.key);
      if found == None {
        return false;
      }
      if found.value {
        ok := Validate(m.value, s.patternProperties[i].schema, env);
        if !ok {
          return false;
        }
        validated := true;
      }
    }
    if validated {
      return true;
    }
    match s.additionalProperties {
      case Unsaid => return true;
      case Flag(allowed) => return allowed;
      case Sub(sub) => ok := Validate(m.value, sub, env);
    }
  }

  method ValidateRequired(members: seq<Member>, keys: seq<string>) returns (ok: bool)
    ensures ok == forall k :: k in keys ==> Has(members, k)
  {
    for i := 0 to |keys|
      invariant forall j :: 0 <= j < i ==> Has(members, keys[j])
    {
      var found := HasKey(members, keys[i]);
      if !found {
        assert keys[i] in keys;
        return false;
      }
    }
    return true;
  }

  method ValidateDependencies(members: seq<Member>, s: Schema, env: Env) returns (ok: bool)
    ensures ok == forall i :: 0 <= i < |s.dependencies| && Has(members, s.dependencies[i].key) ==>
                    NeedHolds(members, s.dependencies[i].need, env, false)
    decreases s, 2
  {
    for i := 0 to |s.dependencies|
      invariant forall j :: 0 <= j < i && Has(members, s.dependencies[j].key) ==>
        NeedHolds(members, s.dependencies[j].need, env, false)
    {
      var dependency := s.dependencies[i];
      var present := HasKey(members, dependency.key);
      if !present {
        continue;
      }
      match dependency.need {
        case NeedsSchema(sub) => ok := Validate(Obj(members), sub, env);
        case NeedsAll(keys) => ok := ValidateRequired(members, keys);
      }
      if !ok {
        return false;
      }
    }
    return true;
  }
}
