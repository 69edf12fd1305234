/** JSON schemas without references, and what it means for a value to be valid. */
module JsonSchemas {
  import opened JsonValues
  import opened JsonOrder
  import XmlUtf8

  datatype Option<+T> = None | Some(value: T)

  /** "type": absent, a string, or an array. */
  datatype Types = AnyType | OneType(name: string) | SomeTypes(names: seq<string>)

  /** The value of allOf, anyOf or oneOf. */
  datatype Several = Absent | Of(schemas: seq<Schema>)

  datatype Items = NoItems | Each(schema: Schema) | Tuple(schemas: seq<Schema>)

  datatype Additional = Unsaid | Flag(allowed: bool) | Sub(schema: Schema)

  datatype Property = Property(key: string, schema: Schema)

  datatype Need = NeedsSchema(schema: Schema) | NeedsAll(keys: seq<string>)

  datatype Dependency = Dependency(key: string, need: Need)

  datatype Schema = Schema(
    isNot: Option<Schema>, allOf: Several, anyOf: Several, oneOf: Several,
    enumeration: Option<seq<Json>>, types: Types,
    maximum: Option<JsonInt>, exclusiveMaximum: bool, minimum: Option<JsonInt>, exclusiveMinimum: bool,
    minLength: Option<nat>, maxLength: Option<nat>, pattern: Option<string>, format: Option<string>,
    maxItems: Option<nat>, minItems: Option<nat>, uniqueItems: bool, items: Items, additionalItems: Additional,
    maxProperties: Option<nat>, minProperties: Option<nat>, properties: seq<Property>,
    patternProperties: seq<Property>, additionalProperties: Additional, required: seq<string>,
    dependencies: seq<Dependency>)

  const Empty := Schema(None, Absent, Absent, Absent, None, AnyType, None, false, None, false, None, None, None, None,
                        None, None, false, NoItems, Unsaid, None, None, [], [], Unsaid, [], [])

  /** Regular expressions, formats and sets are not part of this model: a search can also fail for a
      malformed expression, the format checker can be missing, and a set that was filled with some
      values can refuse another. */
  datatype Env = Env(search: (string, string) -> Option<bool>, format: Option<(string, string) -> bool>,
                     refuses: (seq<Json>, Json) -> bool)

  function TypeOf(x: Json): string {
    match x
    case Null => "null"
    case Bool(_) => "boolean"
    case Int(_) => "integer"
    case Str(_) => "string"
    case Arr(_) => "array"
    case Obj(_) => "object"
  }

  /** The types that the keyword names. */
  function Named(types: Types): set<string> {
    match types
    case AnyType => {}
    case OneType(t) => {t}
    case SomeTypes(ts) => set t | t in ts
  }

  /** An integer is also a number. */
  function TypesOf(name: string): set<string> {
    if name == "integer" then {"integer", "number"} else {name}
  }

  /** Section 5.5.2 of draft-fge-json-schema-validation-00: one of the value's types is named. */
  predicate TypeHolds(types: Types, name: string) {
    types.AnyType? || Named(types) * TypesOf(name) != {}
  }

  predicate Above(n: int, bound: Option<int>, exclusive: bool) {
    bound.Some? ==> if exclusive then bound.value < n else bound.value <= n
  }

  predicate Below(n: int, bound: Option<int>, exclusive: bool) {
    bound.Some? ==> if exclusive then n < bound.value else n <= bound.value
  }

  /** The bounds of the draft, on numbers as they are (sections 5.1.2 and 5.1.3). */
  predicate WithinBounds(n: int, s: Schema) {
    Below(n, s.maximum, s.exclusiveMaximum) && Above(n, s.minimum, s.exclusiveMinimum)
  }

  function Unsigned64(n: int): int {
    n % 0x1_0000_0000_0000_0000
  }

  function Image(n: int, unsigned: bool): int {
    if unsigned then Unsigned64(n) else Signed64(n)
  }

  function ImageOf(bound: Option<int>, unsigned: bool): Option<int> {
    match bound case Some(b) => Some(Image(b, unsigned)) case None => None
  }

  /** Non-negative numbers are compared as unsigned where the minimum is not negative as a signed number. */
  predicate ComparesUnsigned(n: int, s: Schema) {
    n >= 0 && s.minimum.Some? && Signed64(s.minimum.value) >= 0
  }

  predicate NumberHolds(n: int, s: Schema) {
    var unsigned := ComparesUnsigned(n, s);
    && Below(Image(n, unsigned), ImageOf(s.maximum, unsigned), s.exclusiveMaximum)
    && Above(Image(n, unsigned), ImageOf(s.minimum, unsigned), s.exclusiveMinimum)
  }

  /** Strings are bytes, one a character. */
  function Bytes(t: string): seq<bv32> {
    seq(|t|, i requires 0 <= i < |t| => (t[i] as int % 256) as bv32)
  }

  function Length(t: string): nat {
    XmlUtf8.Utf8Length(Bytes(t))
  }

  predicate AtMost(n: nat, bound: Option<nat>) {
    bound.Some? ==> n <= bound.value
  }

  predicate AtLeast(n: nat, bound: Option<nat>) {
    bound.Some? ==> n >= bound.value
  }

  /** Where no checker is given, the draft leaves formats unchecked, and the program fails. */
  predicate FormatHolds(t: string, s: Schema, env: Env, draft: bool) {
    s.format.Some? ==> if env.format.Some? then env.format.value(s.format.value, t) else draft
  }

  predicate StringHolds(t: string, s: Schema, env: Env, draft: bool) {
    && AtLeast(Length(t), s.minLength) && AtMost(Length(t), s.maxLength)
    && (s.pattern.Some? ==> env.search(s.pattern.value, t) == Some(true))
    && FormatHolds(t, s, env, draft)
  }

  predicate Has(members: seq<Member>, key: string) {
    exists m :: m in members && m.key == key
  }

  function Described(ps: seq<Property>, key: string): (r: Option<Schema>)
    ensures r.Some? ==> exists p :: p in ps && p.schema == r.value
  {
    if ps == [] then None
    else if ps[0].key == key then assert ps[0] in ps; Some(ps[0].schema)
    else Described(ps[1..], key)
  }

  // ---------- validity ----------

  /** With `draft`, all keywords hold together, values are compared as they are, and formats only
      where there is a checker, as sections 5 and 7 of the draft have it. Without, as the program has
      it: "not" stands alone, of allOf, anyOf and oneOf only the last counts, values are compared as
      the JSON library does, bounds in 64 bits, and a format needs a checker. */
  predicate Valid(x: Json, s: Schema, env: Env, draft: bool)
    decreases s, 5
  {
    if draft then
      && (s.isNot.Some? ==> !Valid(x, s.isNot.value, env, draft))
      && (s.allOf.Of? ==> All(Results(x, s.allOf.schemas, env, draft)))
      && (s.anyOf.Of? ==> Any(Results(x, s.anyOf.schemas, env, draft)))
      && (s.oneOf.Of? ==> One(Results(x, s.oneOf.schemas, env, draft)))
      && Plainly(x, s, env, draft)
    else if s.isNot.Some? then !Valid(x, s.isNot.value, env, draft)
    else
      && (if s.oneOf.Of? then One(Results(x, s.oneOf.schemas, env, draft))
          else if s.anyOf.Of? then Any(Results(x, s.anyOf.schemas, env, draft))
          else s.allOf.Of? ==> All(Results(x, s.allOf.schemas, env, draft)))
      && Plainly(x, s, env, draft)
  }

  /** Which of the schemas hold. */
  function Results(x: Json, subs: seq<Schema>, env: Env, draft: bool): (r: seq<bool>)
    ensures |r| == |subs|
    decreases subs, 0
  {
    seq(|subs|, i requires 0 <= i < |subs| => Valid(x, subs[i], env, draft))
  }

  predicate All(results: seq<bool>) {
    forall i :: 0 <= i < |results| ==> results[i]
  }

  predicate Any(results: seq<bool>) {
    exists i :: 0 <= i < |results| && results[i]
  }

  predicate One(results: seq<bool>) {
    exists i :: 0 <= i < |results| && results[i] && forall j :: 0 <= j < |results| && j != i ==> !results[j]
  }

  /** All keywords but the four that combine schemas. */
  predicate Plainly(x: Json, s: Schema, env: Env, draft: bool)
    decreases s, 4
  {
    && (s.enumeration.Some? ==> if draft then x in s.enumeration.value else Contains(s.enumeration.value, x))
    && TypeHolds(s.types, TypeOf(x))
    && match x
       case Int(n) => if draft then WithinBounds(n, s) else NumberHolds(n, s)
       case Str(t) => StringHolds(t, s, env, draft)
       case Arr(xs) => ArrayHolds(xs, s, env, draft)
       case Obj(members) => ObjectHolds(members, s, env, draft)
       case _ => true
  }

  predicate ArrayHolds(xs: seq<Json>, s: Schema, env: Env, draft: bool)
    decreases s, 3
  {
    && AtMost(|xs|, s.maxItems) && AtLeast(|xs|, s.minItems)
    && (s.uniqueItems ==> if draft then AllDistinct(xs) else Unique(xs, env.refuses))
    && forall i :: 0 <= i < |xs| ==> ItemHolds(xs[i], i, s, env, draft)
  }

  /** Additional items are those behind a list of schemas. */
  predicate ItemHolds(x: Json, i: nat, s: Schema, env: Env, draft: bool)
    decreases s, 2
  {
    match s.items
    case NoItems => true
    case Each(sub) => Valid(x, sub, env, draft)
    case Tuple(subs) =>
      if i < |subs| then Valid(x, subs[i], env, draft) else AdditionalHolds(x, s.additionalItems, env, draft)
  }

  predicate AdditionalHolds(x: Json, a: Additional, env: Env, draft: bool)
    decreases a, 0
  {
    match a
    case Unsaid => true
    case Flag(allowed) => allowed
    case Sub(sub) => Valid(x, sub, env, draft)
  }

  predicate ObjectHolds(members: seq<Member>, s: Schema, env: Env, draft: bool)
    decreases s, 3
  {
    && AtMost(|members|, s.maxProperties) && AtLeast(|members|, s.minProperties)
    && (forall i :: 0 <= i < |members| ==> MemberHolds(members[i], s, env, draft))
    && (forall k :: k in s.required ==> Has(members, k))
    && (forall i :: 0 <= i < |s.dependencies| && Has(members, s.dependencies[i].key) ==>
          NeedHolds(members, s.dependencies[i].need, env, draft))
  }

  predicate NeedHolds(members: seq<Member>, need: Need, env: Env, draft: bool)
    decreases need, 0
  {
    match need
    case NeedsSchema(sub) => Valid(Obj(members), sub, env, draft)
    case NeedsAll(keys) => forall k :: k in keys ==> Has(members, k)
  }

  /** Additional properties are those that no property and no pattern describes. */
  predicate MemberHolds(m: Member, s: Schema, env: Env, draft: bool)
    decreases s, 2
  {
    && (var d := Described(s.properties, m.key); d.Some? ==> Valid(m.value, d.value, env, draft))
    && (forall i :: 0 <= i < |s.patternProperties| ==> PatternHolds(m, s.patternProperties[i], env, draft))
    && (Undescribed(m, s, env) ==> AdditionalHolds(m.value, s.additionalProperties, env, draft))
  }

  predicate Undescribed(m: Member, s: Schema, env: Env) {
    && Described(s.properties, m.key) == None
    && forall i :: 0 <= i < |s.patternProperties| ==> env.search(s.patternProperties[i].key, m.key) != Some(true)
  }

  predicate PatternHolds(m: Member, p: Property, env: Env, draft: bool)
    decreases p, 0
  {
    env.search(p.key, m.key).Some? && (env.search(p.key, m.key).value ==> Valid(m.value, p.schema, env, draft))
  }
}
