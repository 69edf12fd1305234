/** Naming the subschemas of a schema document, each by its own pointer. */
module JsonResolver {
  import opened JsonValues
  import opened JsonPointers

  /** A URI: its name if it is an urn, its protocol, host and path, and its pointer. */
  datatype Uri = Uri(urn: string, url: string, pointer: string)

  function UriText(u: Uri): string {
    u.urn + u.url + u.pointer
  }

  function Append(u: Uri, field: string): Uri {
    u.(pointer := u.pointer + "/" + field)
  }

  function Digit(d: nat): char
    requires d < 10
  {
    '0' + d as char
  }

  /** `std::to_string` */
  function Decimal(n: nat): string {
    if n < 10 then [Digit(n)] else Decimal(n / 10) + [Digit(n % 10)]
  }

  // ---------- the places a document has ----------

  datatype Place = Place(uri: Uri, path: seq<string>)

  /** An "id" that is a string gives a new name; derive is not part of this model. */
  function OwnId(schema: Json, id: Uri, derive: (Uri, string) -> Uri): Uri
    requires schema.Obj?
  {
    var fid := Find(schema.members, "id");
    if fid != [] && fid[0].Str? then derive(id, fid[0].s) else id
  }

  function Places(schema: Json, id: Uri, path: seq<string>, derive: (Uri, string) -> Uri): seq<Place>
    requires schema.Obj?
    decreases schema, 2
  {
    var own := OwnId(schema, id, derive);
    [Place(own, path)] + PlacesOfMembers(schema.members, own, path, derive)
  }

  function PlacesOfMembers(ms: seq<Member>, id: Uri, path: seq<string>, derive: (Uri, string) -> Uri): seq<Place>
    decreases ms, 1
  {
    if ms == [] then [] else PlacesOfMember(ms[0], id, path, derive) + PlacesOfMembers(ms[1..], id, path, derive)
  }

  function PlacesOfMember(m: Member, id: Uri, path: seq<string>, derive: (Uri, string) -> Uri): seq<Place>
    decreases m, 0
  {
    var sub, subPath := Append(id, Escaped(m.key)), path + [m.key];
    if m.key == "default" then []
    else if m.value.Obj? then Places(m.value, sub, subPath, derive)
    else if m.value.Arr? then PlacesOfItems(m.value.items, 0, sub, subPath, derive)
    else []
  }

  function PlacesOfItems(items: seq<Json>, index: nat, id: Uri, path: seq<string>, derive: (Uri, string) -> Uri): seq<Place>
    decreases items, 0
  {
    if items == [] then []
    else
      (if items[0].Obj? then Places(items[0], Append(id, Decimal(index)), path + [Decimal(index)], derive) else [])
      + PlacesOfItems(items[1..], index + 1, id, path, derive)
  }

  // ---------- references ----------

  /** A document in which every reference is absolute. */
  function Rewritten(schema: Json, id: Uri, derive: (Uri, string) -> Uri): Json
    requires schema.Obj?
    decreases schema, 2
  {
    Obj(RewrittenMembers(schema.members, OwnId(schema, id, derive), derive))
  }

  function RewrittenMembers(ms: seq<Member>, id: Uri, derive: (Uri, string) -> Uri): seq<Member>
    decreases ms, 1
  {
    if ms == [] then []
    else [Member(ms[0].key, RewrittenValue(ms[0], id, derive))] + RewrittenMembers(ms[1..], id, derive)
  }

  function RewrittenValue(m: Member, id: Uri, derive: (Uri, string) -> Uri): Json
    decreases m, 0
  {
    var sub := Append(id, Escaped(m.key));
    if m.key == "default" then m.value
    else if m.value.Obj? then Rewritten(m.value, sub, derive)
    else if m.value.Arr? then Arr(RewrittenItems(m.value.items, 0, sub, derive))
    else if m.key == "$ref" && m.value.Str? then Str(UriText(derive(id, m.value.s)))
    else m.value
  }

  function RewrittenItems(items: seq<Json>, index: nat, id: Uri, derive: (Uri, string) -> Uri): seq<Json>
    decreases items, 0
  {
    if items == [] then []
    else
      [if items[0].Obj? then Rewritten(items[0], Append(id, Decimal(index)), derive) else items[0]]
      + RewrittenItems(items[1..], index + 1, id, derive)
  }

  /** The references of a document, absolute. */
  function References(schema: Json, id: Uri, derive: (Uri, string) -> Uri): set<Uri>
    requires schema.Obj?
    decreases schema, 2
  {
    ReferencesOfMembers(schema.members, OwnId(schema, id, derive), derive)
  }

  function ReferencesOfMembers(ms: seq<Member>, id: Uri, derive: (Uri, string) -> Uri): set<Uri>
    decreases ms, 1
  {
    if ms == [] then {} else ReferencesOfMember(ms[0], id, derive) + ReferencesOfMembers(ms[1..], id, derive)
  }

  function ReferencesOfMember(m: Member, id: Uri, derive: (Uri, string) -> Uri): set<Uri>
    decreases m, 0
  {
    var sub := Append(id, Escaped(m.key));
    if m.key == "default" then {}
    else if m.value.Obj? then References(m.value, sub, derive)
    else if m.value.Arr? then ReferencesOfItems(m.value.items, 0, sub, derive)
    else if m.key == "$ref" && m.value.Str? then {derive(id, m.value.s)}
    else {}
  }

  function ReferencesOfItems(items: seq<Json>, index: nat, id: Uri, derive: (Uri, string) -> Uri): set<Uri>
    decreases items, 0
  {
    if items == [] then {}
    else
      (if items[0].Obj? then References(items[0], Append(id, Decimal(index)), derive) else {})
      + ReferencesOfItems(items[1..], index + 1, id, derive)
  }

  /** The places one after the other into a table, which must not have the name yet. */
  function Stored(table: map<Uri, seq<string>>, places: seq<Place>): Option<map<Uri, seq<string>>>
    decreases |places|
  {
    if places == [] then Some(table)
    else if places[0].uri in table then None
    else Stored(table[places[0].uri := places[0].path], places[1..])
  }

  lemma {:induction false} StoredJoins(table: map<Uri, seq<string>>, a: seq<Place>, b: seq<Place>)
    ensures Stored(table, a + b) == match Stored(table, a) case None => None case Some(t) => Stored(t, b)
    decreases |a|
  {
    if a == [] {
      assert a + b == b;
    } else {
      assert (a + b)[0] == a[0] && (a + b)[1..] == a[1..] + b;
      StoredJoins(table[a[0].uri := a[0].path], a[1..], b);
    }
  }

  // ---------- the resolver ----------

  class Resolver {
    var schemaRefs: map<Uri, seq<string>>
    var refs: set<Uri>
    var undefinedRefs: set<string>
    const derive: (Uri, string) -> Uri

    constructor (derive: (Uri, string) -> Uri)
      ensures schemaRefs == map[] && refs == {} && undefinedRefs == {} && this.derive == derive
    {
      this.derive := derive;
      schemaRefs, refs, undefinedRefs := map[], {}, {};
    }

    /** A whole document: an "id" at the root comes first and has to be a string, and a reference to
        the document itself has to be there; others are left for later. */
    method ResolveDocument(schema: Json, id: Uri) returns (ok: bool, rewritten: Json)
      requires schema.Obj? && schemaRefs == map[] && refs == {} && undefinedRefs == {}
      modifies this
      ensures ok == Resolves(schema, id, derive)
      ensures ok ==> rewritten == Rewritten(schema, OwnId(schema, id, derive), derive)
      ensures ok ==> Stored(map[], PlacesOfDocument(schema, id, derive)) == Some(schemaRefs)
      ensures ok ==> undefinedRefs == set r | r in References(schema, OwnId(schema, id, derive), derive) && r !in schemaRefs :: r.url
    {
      var fid := Find(schema.members, "id");
      var own := id;
      if fid != [] {
        if !fid[0].Str? {
          return false, schema;
        }
        own := derive(id, fid[0].s);
      }
      ok, rewritten := Resolve(schema, own, []);
      if ok {
        ok := CheckReferences(own);
      }
    }

    /** The loop over all references, in whatever order. */
    method CheckReferences(id: Uri) returns (ok: bool)
      modifies this`undefinedRefs
      ensures ok == forall r :: r in refs ==> r in schemaRefs || r.url != id.url
      ensures ok ==> undefinedRefs == old(undefinedRefs) + set r | r in refs && r !in schemaRefs :: r.url
    {
      var todo := refs;
      while todo != {}
        invariant todo <= refs
        invariant forall r :: r in refs - todo ==> r in schemaRefs || r.url != id.url
        invariant undefinedRefs == old(undefinedRefs) + set r | r in refs - todo && r !in schemaRefs :: r.url
        decreases todo
      {
        var r :| r in todo;
        if r !in schemaRefs {
          if r.url == id.url {
            return false;
          }
          undefinedRefs := undefinedRefs + {r.url};
        }
        todo := todo - {r};
      }
      return true;
    }

    /** Names schema and all below it, and makes references absolute; `ok` is false when a name was
        there already. */
    method Resolve(schema: Json, id: Uri, path: seq<string>) returns (ok: bool, rewritten: Json)
      requires schema.Obj?
      modifies this`schemaRefs, this`refs
      ensures match Stored(old(schemaRefs), Places(schema, id, path, derive))
              case Some(table) => ok && schemaRefs == table
              case None => !ok
      ensures ok ==> rewritten == Rewritten(schema, id, derive) && refs == old(refs) + References(schema, id, derive)
      decreases schema, 2
    {
      var own := id;
      var fid := Find(schema.members, "id");
      if fid != [] && fid[0].Str? {
        own := derive(id, fid[0].s);
      }
      if own in schemaRefs {
        return false, schema;
      }
      schemaRefs := schemaRefs[own := path];
      var members;
      ok, members := ResolveMembers(schema.members, own, path);
      rewritten := Obj(members);
    }

    /** The loop over the members. */
    method ResolveMembers(members: seq<Member>, id: Uri, path: seq<string>) returns (ok: bool, rewritten: seq<Member>)
      modifies this`schemaRefs, this`refs
      ensures match Stored(old(schemaRefs), PlacesOfMembers(members, id, path, derive))
              case Some(table) => ok && schemaRefs == table
              case None => !ok
      ensures ok ==> rewritten == RewrittenMembers(members, id, derive)
      ensures ok ==> refs == old(refs) + ReferencesOfMembers(members, id, derive)
      decreases members, 1
    {
      hide PlacesOfMember, RewrittenValue, ReferencesOfMember, Places, Rewritten, References;
      rewritten := [];
      for i := 0 to |members|
        invariant Stored(old(schemaRefs), PlacesOfMembers(members, id, path, derive))
               == Stored(schemaRefs, PlacesOfMembers(members[i..], id, path, derive))
        invariant rewritten + RewrittenMembers(members[i..], id, derive) == RewrittenMembers(members, id, derive)
        invariant refs + ReferencesOfMembers(members[i..], id, derive) == old(refs) + ReferencesOfMembers(members, id, derive)
      {
        OneMember(schemaRefs, rewritten, refs, members, i, id, path, derive);
        var value;
        ok, value := ResolveMember(members[i], id, path);
        if !ok {
          return;
        }
        rewritten := rewritten + [Member(members[i].key, value)];
      }
      return true, rewritten;
    }

    /** One turn of that loop: objects and arrays are gone into, and a reference made absolute. */
    method ResolveMember(m: Member, id: Uri, path: seq<string>) returns (ok: bool, value: Json)
      modifies this`schemaRefs, this`refs
      ensures match Stored(old(schemaRefs), PlacesOfMember(m, id, path, derive))
              case Some(table) => ok && schemaRefs == table
              case None => !ok
      ensures ok ==> value == RewrittenValue(m, id, derive) && refs == old(refs) + ReferencesOfMember(m, id, derive)
      decreases m, 0
    {
      if m.key == "default" {
        return true, m.value;
      }
      match m.value {
        case Obj(_) =>
          ok, value := Resolve(m.value, Append(id, Escaped(m.key)), path + [m.key]);
        case Arr(items) =>
          var found;
          ok, found := ResolveItems(items, Append(id, Escaped(m.key)), path + [m.key]);
          value := Arr(found);
        case Str(s) =>
          ok, value := true, m.value;
          if m.key == "$ref" {
            var ref := derive(id, s);
            value := Str(UriText(ref));
            refs := refs + {ref};
          }
        case _ =>
          ok, value := true, m.value;
      }
    }

    /** The loop over the elements of an array. */
    method ResolveItems(items: seq<Json>, id: Uri, path: seq<string>) returns (ok: bool, rewritten: seq<Json>)
      modifies this`schemaRefs, this`refs
      ensures match Stored(old(schemaRefs), PlacesOfItems(items, 0, id, path, derive))
              case Some(table) => ok && schemaRefs == table
              case None => !ok
      ensures ok ==> rewritten == RewrittenItems(items, 0, id, derive)
      ensures ok ==> refs == old(refs) + ReferencesOfItems(items, 0, id, derive)
      decreases items, 0
    {
      hide Places, Rewritten, References, Decimal;
      rewritten := [];
      for i := 0 to |items|
        invariant Stored(old(schemaRefs), PlacesOfItems(items, 0, id, path, derive))
               == Stored(schemaRefs, PlacesOfItems(items[i..], i, id, path, derive))
        invariant rewritten + RewrittenItems(items[i..], i, id, derive) == RewrittenItems(items, 0, id, derive)
        invariant refs + ReferencesOfItems(items[i..], i, id, derive) == old(refs) + ReferencesOfItems(items, 0, id, derive)
      {
        OneItem(schemaRefs, rewritten, refs, items, i, id, path, derive);
        var v := items[i];
        if v.Obj? {
          ok, v := Resolve(v, Append(id, Decimal(i)), path + [Decimal(i)]);
          if !ok {
            return;
          }
        }
        rewritten := rewritten + [v];
      }
      return true, rewritten;
    }
  }

  lemma OneMember(table: map<Uri, seq<string>>, found: seq<Member>, refs: set<Uri>, ms: seq<Member>, i: nat, id: Uri,
                  path: seq<string>, derive: (Uri, string) -> Uri)
    requires i < |ms|
    ensures Stored(table, PlacesOfMembers(ms[i..], id, path, derive))
         == match Stored(table, PlacesOfMember(ms[i], id, path, derive))
            case None => None case Some(t) => Stored(t, PlacesOfMembers(ms[i + 1..], id, path, derive))
    ensures found + RewrittenMembers(ms[i..], id, derive)
         == found + [Member(ms[i].key, RewrittenValue(ms[i], id, derive))] + RewrittenMembers(ms[i + 1..], id, derive)
    ensures refs + ReferencesOfMembers(ms[i..], id, derive)
         == refs + ReferencesOfMember(ms[i], id, derive) + ReferencesOfMembers(ms[i + 1..], id, derive)
  {
    assert ms[i..][0] == ms[i] && ms[i..][1..] == ms[i + 1..];
    StoredJoins(table, PlacesOfMember(ms[i], id, path, derive), PlacesOfMembers(ms[i + 1..], id, path, derive));
  }

  lemma OneItem(table: map<Uri, seq<string>>, found: seq<Json>, refs: set<Uri>, items: seq<Json>, i: nat, id: Uri,
                path: seq<string>, derive: (Uri, string) -> Uri)
    requires i < |items|
    ensures var v, sub, subPath := items[i], Append(id, Decimal(i)), path + [Decimal(i)];
            && Stored(table, PlacesOfItems(items[i..], i, id, path, derive))
               == (match Stored(table, if v.Obj? then Places(v, sub, subPath, derive) else [])
                   case None => None case Some(t) => Stored(t, PlacesOfItems(items[i + 1..], i + 1, id, path, derive)))
            && found + RewrittenItems(items[i..], i, id, derive)
               == found + [if v.Obj? then Rewritten(v, sub, derive) else v] + RewrittenItems(items[i + 1..], i + 1, id, derive)
            && refs + ReferencesOfItems(items[i..], i, id, derive)
               == refs + (if v.Obj? then References(v, sub, derive) else {}) + ReferencesOfItems(items[i + 1..], i + 1, id, derive)
  {
    var v, sub, subPath := items[i], Append(id, Decimal(i)), path + [Decimal(i)];
    assert items[i..][0] == v && items[i..][1..] == items[i + 1..];
    var here := if v.Obj? then Places(v, sub, subPath, derive) else [];
    assert PlacesOfItems(items[i..], i, id, path, derive) == here + PlacesOfItems(items[i + 1..], i + 1, id, path, derive);
    StoredJoins(table, here, PlacesOfItems(items[i + 1..], i + 1, id, path, derive));
  }

  function PlacesOfDocument(schema: Json, id: Uri, derive: (Uri, string) -> Uri): seq<Place>
    requires schema.Obj?
  {
    Places(schema, OwnId(schema, id, derive), [], derive)
  }

  /** A document is taken when its root id, if any, is a string, no two names are the same, and its
      references to itself are to places it has. */
  predicate Resolves(schema: Json, id: Uri, derive: (Uri, string) -> Uri)
    requires schema.Obj?
  {
    var own := OwnId(schema, id, derive);
    && (Find(schema.members, "id") == [] || Find(schema.members, "id")[0].Str?)
    && match Stored(map[], PlacesOfDocument(schema, id, derive))
       case None => false
       case Some(table) => forall r :: r in References(schema, own, derive) ==> r in table || r.url != own.url
  }

  // ---------- without ids, names are pointers, and no two are the same ----------

  predicate WellFormed(j: Json)
    decreases j, 2
  {
    match j
    case Obj(members) => DistinctKeys(members) && WellFormedMembers(members)
    case Arr(items) => WellFormedItems(items)
    case _ => true
  }

  predicate WellFormedMembers(ms: seq<Member>)
    decreases ms, 1
  {
    ms != [] ==> WellFormed(ms[0].value) && WellFormedMembers(ms[1..])
  }

  predicate WellFormedItems(items: seq<Json>)
    decreases items, 1
  {
    items != [] ==> WellFormed(items[0]) && WellFormedItems(items[1..])
  }

  /** No object that counts as a schema has an "id" that is a string. */
  predicate NoIds(j: Json)
    decreases j, 2
  {
    match j
    case Obj(members) =>
      (Find(members, "id") == [] || !Find(members, "id")[0].Str?) && NoIdsInMembers(members)
    case Arr(items) => NoIdsInItems(items)
    case _ => true
  }

  predicate NoIdsInMembers(ms: seq<Member>)
    decreases ms, 1
  {
    ms != [] ==> (ms[0].key == "default" || NoIds(ms[0].value)) && NoIdsInMembers(ms[1..])
  }

  predicate NoIdsInItems(items: seq<Json>)
    decreases items, 1
  {
    items != [] ==> NoIds(items[0]) && NoIdsInItems(items[1..])
  }

  /** Every place is named by the pointer of its path, below the given one. */
  predicate NamedByPath(ps: seq<Place>, id: Uri, path: seq<string>) {
    forall i :: 0 <= i < |ps| ==> NamedAt(ps[i], id, path)
  }

  predicate NamedAt(p: Place, id: Uri, path: seq<string>) {
    && |p.path| >= |path| && p.path[..|path|] == path
    && p.uri == id.(pointer := id.pointer + PointerOf(p.path[|path|..]))
  }

  predicate DistinctPaths(ps: seq<Place>) {
    forall i, j :: 0 <= i < j < |ps| ==> ps[i].path != ps[j].path
  }

  /** The step that a path below path takes next. */
  predicate StepsFrom(ps: seq<Place>, n: nat, steps: set<string>) {
    forall i :: 0 <= i < |ps| ==> |ps[i].path| > n && ps[i].path[n] in steps
  }

  lemma OneStepDown(p: Place, id: Uri, path: seq<string>, token: string)
    requires NamedAt(p, Append(id, Escaped(token)), path + [token])
    ensures NamedAt(p, id, path) && |p.path| > |path| && p.path[|path|] == token
  {
    hide Escaped, PointerOf;
    PathBelow(p.path, path, token);
    OneMoreToken(id.pointer, token, p.path[|path| + 1..]);
  }

  lemma PathBelow(full: seq<string>, path: seq<string>, token: string)
    requires |full| > |path| && full[..|path| + 1] == path + [token]
    ensures full[..|path|] == path && full[|path|] == token
    ensures full[|path|..] == [token] + full[|path| + 1..]
  {
    assert full[..|path|] == full[..|path| + 1][..|path|] == path;
    assert full[|path|] == full[..|path| + 1][|path|];
  }

  lemma OneMoreToken(pointer: string, token: string, rest: seq<string>)
    ensures (pointer + "/" + Escaped(token)) + PointerOf(rest) == pointer + PointerOf([token] + rest)
  {
    hide Escaped;
    assert ([token] + rest)[1..] == rest;
    var e, more := Escaped(token), PointerOf(rest);
    assert PointerOf([token] + rest) == "/" + e + more;
    assert pointer + "/" + e + more == pointer + ("/" + e + more);
  }

  lemma StepsDown(ps: seq<Place>, id: Uri, path: seq<string>, token: string)
    requires NamedByPath(ps, Append(id, Escaped(token)), path + [token])
    ensures NamedByPath(ps, id, path) && StepsFrom(ps, |path|, {token})
  {
    forall i | 0 <= i < |ps| ensures NamedAt(ps[i], id, path) && |ps[i].path| > |path| && ps[i].path[|path|] == token {
      OneStepDown(ps[i], id, path, token);
    }
  }

  lemma PlacesJoin(a: seq<Place>, b: seq<Place>, id: Uri, path: seq<string>, s: set<string>, t: set<string>)
    requires NamedByPath(a, id, path) && NamedByPath(b, id, path) && DistinctPaths(a) && DistinctPaths(b)
    requires StepsFrom(a, |path|, s) && StepsFrom(b, |path|, t) && s !! t
    ensures NamedByPath(a + b, id, path) && DistinctPaths(a + b) && StepsFrom(a + b, |path|, s + t)
  {
    hide NamedAt;
    var c := a + b;
    assert forall i :: 0 <= i < |c| ==> c[i] == if i < |a| then a[i] else b[i - |a|];
    forall i, j | 0 <= i < j < |c| ensures c[i].path != c[j].path {
      if i < |a| && |a| <= j {
        assert a[i].path[|path|] in s && b[j - |a|].path[|path|] in t;
      }
    }
  }

  /** A numeral needs no escaping, and tells its number. */
  function NumberOf(s: string): int {
    if s == "" then 0 else 10 * NumberOf(s[..|s| - 1]) + (s[|s| - 1] as int - '0' as int)
  }

  lemma {:induction false} DecimalTells(n: nat)
    ensures NumberOf(Decimal(n)) == n
  {
    if n < 10 {
      assert Decimal(n)[..0] == "";
    } else {
      var s := Decimal(n);
      assert s[..|s| - 1] == Decimal(n / 10);
      DecimalTells(n / 10);
    }
  }

  lemma {:induction false} DecimalDigits(n: nat)
    ensures forall c :: c in Decimal(n) ==> '0' <= c <= '9'
  {
    if n >= 10 {
      DecimalDigits(n / 10);
    }
  }

  lemma DecimalNeedsNoEscape(n: nat)
    ensures Escaped(Decimal(n)) == Decimal(n)
  {
    DecimalDigits(n);
    NothingToEscape(Decimal(n));
  }

  ghost function KeysOf(ms: seq<Member>): set<string> {
    set m | m in ms :: m.key
  }

  ghost predicate FromIndex(steps: set<string>, from: nat) {
    forall s :: s in steps ==> exists k :: k >= from && s == Decimal(k)
  }

  lemma {:induction false} PlacesAreDistinct(schema: Json, id: Uri, path: seq<string>, derive: (Uri, string) -> Uri)
    requires schema.Obj? && WellFormed(schema) && NoIds(schema)
    ensures var ps := Places(schema, id, path, derive); NamedByPath(ps, id, path) && DistinctPaths(ps)
    decreases schema, 2
  {
    var ps, below := Places(schema, id, path, derive), PlacesOfMembers(schema.members, id, path, derive);
    var steps := MembersAreDistinct(schema.members, id, path, derive);
    assert ps == [Place(id, path)] + below;
    assert NamedAt(Place(id, path), id, path) by {
      assert path[|path|..] == [];
      assert id.pointer + "" == id.pointer;
    }
    hide NamedAt;
    assert forall i :: 0 < i < |ps| ==> ps[i] == below[i - 1];
  }

  lemma {:induction false} MembersAreDistinct(ms: seq<Member>, id: Uri, path: seq<string>, derive: (Uri, string) -> Uri)
    returns (steps: set<string>)
    requires DistinctKeys(ms) && WellFormedMembers(ms) && NoIdsInMembers(ms)
    ensures var ps := PlacesOfMembers(ms, id, path, derive);
            NamedByPath(ps, id, path) && DistinctPaths(ps) && StepsFrom(ps, |path|, steps) && steps <= KeysOf(ms)
    decreases ms, 1
  {
    if ms == [] {
      steps := {};
    } else {
      var rest := MembersAreDistinct(ms[1..], id, path, derive);
      MemberIsDistinct(ms[0], id, path, derive);
      assert forall m :: m in ms[1..] ==> m.key != ms[0].key by {
        forall m | m in ms[1..] ensures m.key != ms[0].key {
          var i :| 0 <= i < |ms[1..]| && ms[1..][i] == m;
          assert ms[i + 1] == m;
        }
      }
      assert ms[0] in ms;
      PlacesJoin(PlacesOfMember(ms[0], id, path, derive), PlacesOfMembers(ms[1..], id, path, derive), id, path,
                 {ms[0].key}, rest);
      steps := {ms[0].key} + rest;
    }
  }

  lemma {:induction false} MemberIsDistinct(m: Member, id: Uri, path: seq<string>, derive: (Uri, string) -> Uri)
    requires WellFormed(m.value) && (m.key == "default" || NoIds(m.value))
    ensures var ps := PlacesOfMember(m, id, path, derive);
            NamedByPath(ps, id, path) && DistinctPaths(ps) && StepsFrom(ps, |path|, {m.key})
    decreases m, 0
  {
    var sub, subPath := Append(id, Escaped(m.key)), path + [m.key];
    var ps := PlacesOfMember(m, id, path, derive);
    if m.key != "default" && m.value.Obj? {
      PlacesAreDistinct(m.value, sub, subPath, derive);
      StepsDown(ps, id, path, m.key);
    } else if m.key != "default" && m.value.Arr? {
      var _ := ItemsAreDistinct(m.value.items, 0, sub, subPath, derive);
      StepsDown(ps, id, path, m.key);
    }
  }

  lemma {:induction false} ItemsAreDistinct(items: seq<Json>, index: nat, id: Uri, path: seq<string>,
                                            derive: (Uri, string) -> Uri)
    returns (steps: set<string>)
    requires WellFormedItems(items) && NoIdsInItems(items)
    ensures var ps := PlacesOfItems(items, index, id, path, derive);
            NamedByPath(ps, id, path) && DistinctPaths(ps) && StepsFrom(ps, |path|, steps) && FromIndex(steps, index)
    decreases items, 0
  {
    if items == [] {
      steps := {};
    } else {
      var rest := ItemsAreDistinct(items[1..], index + 1, id, path, derive);
      var t := Decimal(index);
      var here := if items[0].Obj? then Places(items[0], Append(id, t), path + [t], derive) else [];
      DecimalNeedsNoEscape(index);
      if items[0].Obj? {
        PlacesAreDistinct(items[0], Append(id, t), path + [t], derive);
        StepsDown(here, id, path, t);
      }
      forall s | s in rest ensures s != t {
        var k :| k >= index + 1 && s == Decimal(k);
        DecimalTells(k);
        DecimalTells(index);
      }
      PlacesJoin(here, PlacesOfItems(items[1..], index + 1, id, path, derive), id, path, {t}, rest);
      steps := {t} + rest;
    }
  }

  /** Distinct names can all be stored. */
  lemma {:induction false} AllStored(table: map<Uri, seq<string>>, ps: seq<Place>)
    requires forall i :: 0 <= i < |ps| ==> ps[i].uri !in table
    requires forall i, j :: 0 <= i < j < |ps| ==> ps[i].uri != ps[j].uri
    ensures var r := Stored(table, ps);
            && r.Some? && (forall u :: u in table ==> u in r.value && r.value[u] == table[u])
            && (forall i :: 0 <= i < |ps| ==> ps[i].uri in r.value && r.value[ps[i].uri] == ps[i].path)
            && (forall u :: u in r.value ==> u in table || exists i :: 0 <= i < |ps| && ps[i].uri == u)
    decreases |ps|
  {
    if ps != [] {
      var rest := ps[1..];
      assert forall i :: 0 <= i < |rest| ==> rest[i] == ps[i + 1];
      AllStored(table[ps[0].uri := ps[0].path], rest);
      forall i | 0 <= i < |ps|
        ensures ps[i].uri in Stored(table, ps).value && Stored(table, ps).value[ps[i].uri] == ps[i].path
      {
        if i > 0 {
          assert ps[i] == rest[i - 1];
        }
      }
    }
  }

  /** A document without ids is never refused for a duplicate: every subschema is named by its own
      pointer, and the names are exactly those of its places. */
  lemma NoIdsNoDuplicates(schema: Json, id: Uri, derive: (Uri, string) -> Uri)
    requires schema.Obj? && WellFormed(schema) && NoIds(schema)
    ensures var ps, r := Places(schema, id, [], derive), Stored(map[], Places(schema, id, [], derive));
            && r.Some?
            && (forall i :: 0 <= i < |ps| ==> ps[i].uri == id.(pointer := id.pointer + PointerOf(ps[i].path)))
            && (forall i :: 0 <= i < |ps| ==> ps[i].uri in r.value && r.value[ps[i].uri] == ps[i].path)
            && (forall u :: u in r.value ==> exists i :: 0 <= i < |ps| && ps[i].uri == u)
  {
    var ps := Places(schema, id, [], derive);
    PlacesAreDistinct(schema, id, [], derive);
    forall i | 0 <= i < |ps| ensures ps[i].uri == id.(pointer := id.pointer + PointerOf(ps[i].path)) {
      assert NamedAt(ps[i], id, []);
      assert ps[i].path[0..] == ps[i].path;
    }
    forall i, j | 0 <= i < j < |ps| ensures ps[i].uri != ps[j].uri {
      var n := |id.pointer|;
      if ps[i].uri == ps[j].uri {
        assert PointerOf(ps[i].path) == ps[i].uri.pointer[n..] && PointerOf(ps[j].path) == ps[j].uri.pointer[n..];
        PointersTellPaths(ps[i].path, ps[j].path);
      }
    }
    AllStored(map[], ps);
  }

  /** So it is taken exactly when its references to itself are pointers to its own subschemas. */
  lemma NoIdsResolvesIff(schema: Json, id: Uri, derive: (Uri, string) -> Uri)
    requires schema.Obj? && WellFormed(schema) && NoIds(schema) && Find(schema.members, "id") == []
    ensures Resolves(schema, id, derive) <==>
      forall r :: r in References(schema, id, derive) && r.url == id.url ==>
        exists i :: 0 <= i < |Places(schema, id, [], derive)|
          && r == id.(pointer := id.pointer + PointerOf(Places(schema, id, [], derive)[i].path))
  {
    var ps := Places(schema, id, [], derive);
    NoIdsNoDuplicates(schema, id, derive);
    var table := Stored(map[], ps).value;
    hide Places, References, Stored, PointerOf;
    forall r ensures r in table <==> exists i :: 0 <= i < |ps| && r == id.(pointer := id.pointer + PointerOf(ps[i].path)) {
      if r in table {
        var i :| 0 <= i < |ps| && ps[i].uri == r;
        assert r == id.(pointer := id.pointer + PointerOf(ps[i].path));
      }
    }
  }
}
