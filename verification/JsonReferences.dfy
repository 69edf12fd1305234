/** Which objects the resolver comes to, what it calls them, and which references it makes absolute. */
module JsonReferences {
  import opened JsonValues
  import opened JsonPointers
  import opened JsonResolver

  // ---------- ways down into a document ----------

  /** From an object to the one that is its i-th member, or that is item j of it. */
  datatype Step = Step(i: nat, j: Option<nat>)

  /** The object that a step leads to, if it does: nothing is looked for below "default". */
  predicate Leads(schema: Json, step: Step) {
    && schema.Obj? && step.i < |schema.members| && schema.members[step.i].key != "default"
    && var value := schema.members[step.i].value;
       match step.j
       case None => value.Obj?
       case Some(j) => value.Arr? && j < |value.items| && value.items[j].Obj?
  }

  function Target(schema: Json, step: Step): (o: Json)
    requires Leads(schema, step)
    ensures o.Obj? && o < schema
  {
    var value := schema.members[step.i].value;
    match step.j case None => value case Some(j) => value.items[j]
  }

  /** Its name: where it is, below the name of the object it is in. */
  function TargetName(schema: Json, name: Uri, step: Step): Uri
    requires Leads(schema, step)
  {
    var u := Append(name, Escaped(schema.members[step.i].key));
    match step.j case None => u case Some(j) => Append(u, Decimal(j))
  }

  function TargetPath(schema: Json, path: seq<string>, step: Step): seq<string>
    requires Leads(schema, step)
  {
    path + [schema.members[step.i].key] + match step.j case None => [] case Some(j) => [Decimal(j)]
  }

  predicate HasRef(o: Json, s: string) {
    o.Obj? && exists i :: 0 <= i < |o.members| && o.members[i] == Member("$ref", Str(s))
  }

  // ---------- members and items by their indices ----------

  lemma {:induction false} MemberPlaces(ms: seq<Member>, id: Uri, path: seq<string>, derive: (Uri, string) -> Uri, p: Place)
    ensures p in PlacesOfMembers(ms, id, path, derive) <==>
      exists i :: 0 <= i < |ms| && p in PlacesOfMember(ms[i], id, path, derive)
  {
    hide PlacesOfMember;
    if ms != [] {
      MemberPlaces(ms[1..], id, path, derive, p);
      forall i | 0 <= i < |ms[1..]| ensures ms[1..][i] == ms[i + 1] {
      }
      if i :| 0 <= i < |ms| && p in PlacesOfMember(ms[i], id, path, derive) {
        assert i > 0 ==> ms[1..][i - 1] == ms[i];
      }
    }
  }

  lemma {:induction false} ItemPlaces(items: seq<Json>, index: nat, id: Uri, path: seq<string>, derive: (Uri, string) -> Uri, p: Place)
    ensures p in PlacesOfItems(items, index, id, path, derive) <==>
      exists j :: 0 <= j < |items| && ItemHas(items, index, j, id, path, derive, p)
  {
    hide Places, ItemHas;
    if items != [] {
      ItemPlaces(items[1..], index + 1, id, path, derive, p);
      ItemFirst(items, index, id, path, derive, p);
      var more, next := items[1..], index + 1;
      if j :| 0 <= j < |more| && ItemHas(more, next, j, id, path, derive, p) {
        ItemLater(items, index, j, id, path, derive, p);
        assert ItemHas(items, index, j + 1, id, path, derive, p);
      }
      if j :| 0 <= j < |items| && ItemHas(items, index, j, id, path, derive, p) {
        if j > 0 {
          ItemLater(items, index, j - 1, id, path, derive, p);
        }
      }
    }
  }

  predicate ItemHas(items: seq<Json>, index: nat, j: nat, id: Uri, path: seq<string>, derive: (Uri, string) -> Uri, p: Place)
    requires j < |items|
  {
    items[j].Obj? && p in Places(items[j], Append(id, Decimal(index + j)), path + [Decimal(index + j)], derive)
  }

  lemma ItemLater(items: seq<Json>, index: nat, j: nat, id: Uri, path: seq<string>, derive: (Uri, string) -> Uri, p: Place)
    requires j + 1 < |items|
    ensures ItemHas(items[1..], index + 1, j, id, path, derive, p) == ItemHas(items, index, j + 1, id, path, derive, p)
  {
    hide Places, Decimal;
  }

  lemma ItemFirst(items: seq<Json>, index: nat, id: Uri, path: seq<string>, derive: (Uri, string) -> Uri, p: Place)
    requires items != []
    ensures p in PlacesOfItems(items, index, id, path, derive) <==>
      ItemHas(items, index, 0, id, path, derive, p) || p in PlacesOfItems(items[1..], index + 1, id, path, derive)
  {
    hide Places, Decimal;
  }

  // ---------- places ----------

  ghost predicate PlaceBelow(schema: Json, own: Uri, path: seq<string>, derive: (Uri, string) -> Uri, step: Step, p: Place) {
    Leads(schema, step) && p in Places(Target(schema, step), TargetName(schema, own, step), TargetPath(schema, path, step), derive)
  }

  /** A document's places are itself, under its own name, and those of the objects one step down. */
  lemma PlacesAre(schema: Json, id: Uri, path: seq<string>, derive: (Uri, string) -> Uri, p: Place)
    requires schema.Obj?
    ensures p in Places(schema, id, path, derive) <==>
      var own := OwnId(schema, id, derive);
      p == Place(own, path) || exists step :: PlaceBelow(schema, own, path, derive, step, p)
  {
    var own := OwnId(schema, id, derive);
    assert p in Places(schema, id, path, derive) <==>
      p == Place(own, path) || p in PlacesOfMembers(schema.members, own, path, derive);
    hide Places, PlacesOfMembers, PlacesOfMember, PlaceBelow, OwnId;
    MemberPlaces(schema.members, own, path, derive, p);
    if i :| 0 <= i < |schema.members| && p in PlacesOfMember(schema.members[i], own, path, derive) {
      MemberPlacesAre(schema, i, own, path, derive, p);
    }
    if step :| PlaceBelow(schema, own, path, derive, step, p) {
      BelowIsMember(schema, own, path, derive, step, p);
      MemberPlacesAre(schema, step.i, own, path, derive, p);
    }
  }

  lemma BelowIsMember(schema: Json, own: Uri, path: seq<string>, derive: (Uri, string) -> Uri, step: Step, p: Place)
    requires PlaceBelow(schema, own, path, derive, step, p)
    ensures schema.Obj? && step.i < |schema.members|
  {
  }

  lemma MemberPlacesAre(schema: Json, i: nat, own: Uri, path: seq<string>, derive: (Uri, string) -> Uri, p: Place)
    requires schema.Obj? && i < |schema.members|
    ensures p in PlacesOfMember(schema.members[i], own, path, derive) <==>
      exists step :: PlaceBelow(schema, own, path, derive, step, p) && step.i == i
  {
    hide Places, PlacesOfItems;
    var m := schema.members[i];
    var sub, subPath := Append(own, Escaped(m.key)), path + [m.key];
    assert subPath + [] == subPath;
    if m.key != "default" && m.value.Obj? {
      assert p in PlacesOfMember(m, own, path, derive) <==> PlaceBelow(schema, own, path, derive, Step(i, None), p);
    } else if m.key != "default" && m.value.Arr? {
      ItemPlaces(m.value.items, 0, sub, subPath, derive, p);
      forall j: nat | j < |m.value.items|
        ensures ItemHas(m.value.items, 0, j, sub, subPath, derive, p) <==> PlaceBelow(schema, own, path, derive, Step(i, Some(j)), p)
      {
      }
      hide PlaceBelow, ItemHas;
      if step :| PlaceBelow(schema, own, path, derive, step, p) && step.i == i {
        StepIntoArray(schema, own, path, derive, step, p);
      }
    }
  }

  lemma StepIntoArray(schema: Json, own: Uri, path: seq<string>, derive: (Uri, string) -> Uri, step: Step, p: Place)
    requires PlaceBelow(schema, own, path, derive, step, p) && schema.members[step.i].value.Arr?
    ensures step.j.Some? && step == Step(step.i, Some(step.j.value)) && step.j.value < |schema.members[step.i].value.items|
  {
  }

  // ---------- references ----------

  ghost predicate RefBelow(schema: Json, own: Uri, derive: (Uri, string) -> Uri, step: Step, r: Uri) {
    Leads(schema, step) && r in References(Target(schema, step), TargetName(schema, own, step), derive)
  }

  /** A document's references are its own "$ref", taken from its own name, and those of the objects one step down. */
  lemma ReferencesAre(schema: Json, id: Uri, derive: (Uri, string) -> Uri, r: Uri)
    requires schema.Obj?
    ensures r in References(schema, id, derive) <==>
      var own := OwnId(schema, id, derive);
      (exists s :: HasRef(schema, s) && r == derive(own, s)) || exists step :: RefBelow(schema, own, derive, step, r)
  {
    var own := OwnId(schema, id, derive);
    hide ReferencesOfMembers, ReferencesOfMember, RefBelow, OwnId;
    MemberReferences(schema.members, own, derive, r);
    if i :| 0 <= i < |schema.members| && r in ReferencesOfMember(schema.members[i], own, derive) {
      MemberReferencesAre(schema, i, own, derive, r);
    }
    if step :| RefBelow(schema, own, derive, step, r) {
      RefIsOfMember(schema, own, derive, step, r);
      MemberReferencesAre(schema, step.i, own, derive, r);
    }
    if s :| HasRef(schema, s) && r == derive(own, s) {
      var i :| 0 <= i < |schema.members| && schema.members[i] == Member("$ref", Str(s));
      MemberReferencesAre(schema, i, own, derive, r);
    }
  }

  lemma RefIsOfMember(schema: Json, own: Uri, derive: (Uri, string) -> Uri, step: Step, r: Uri)
    requires RefBelow(schema, own, derive, step, r)
    ensures schema.Obj? && step.i < |schema.members|
  {
  }

  lemma {:induction false} MemberReferences(ms: seq<Member>, id: Uri, derive: (Uri, string) -> Uri, r: Uri)
    ensures r in ReferencesOfMembers(ms, id, derive) <==> exists i :: 0 <= i < |ms| && r in ReferencesOfMember(ms[i], id, derive)
  {
    hide ReferencesOfMember;
    if ms != [] {
      var more := ms[1..];
      MemberReferences(more, id, derive, r);
      if i :| 0 <= i < |more| && r in ReferencesOfMember(more[i], id, derive) {
        assert more[i] == ms[i + 1];
      }
      if i :| 0 <= i < |ms| && r in ReferencesOfMember(ms[i], id, derive) {
        assert i > 0 ==> more[i - 1] == ms[i];
      }
    }
  }

  predicate ItemRefers(items: seq<Json>, index: nat, j: nat, id: Uri, derive: (Uri, string) -> Uri, r: Uri)
    requires j < |items|
  {
    items[j].Obj? && r in References(items[j], Append(id, Decimal(index + j)), derive)
  }

  lemma {:induction false} ItemReferences(items: seq<Json>, index: nat, id: Uri, derive: (Uri, string) -> Uri, r: Uri)
    ensures r in ReferencesOfItems(items, index, id, derive) <==>
      exists j :: 0 <= j < |items| && ItemRefers(items, index, j, id, derive, r)
  {
    hide References, ItemRefers;
    if items != [] {
      var more, next := items[1..], index + 1;
      ItemReferences(more, next, id, derive, r);
      FirstRefers(items, index, id, derive, r);
      if j :| 0 <= j < |more| && ItemRefers(more, next, j, id, derive, r) {
        LaterRefers(items, index, j, id, derive, r);
        assert ItemRefers(items, index, j + 1, id, derive, r);
      }
      if j :| 0 <= j < |items| && ItemRefers(items, index, j, id, derive, r) {
        if j > 0 {
          LaterRefers(items, index, j - 1, id, derive, r);
        }
      }
    }
  }

  lemma LaterRefers(items: seq<Json>, index: nat, j: nat, id: Uri, derive: (Uri, string) -> Uri, r: Uri)
    requires j + 1 < |items|
    ensures ItemRefers(items[1..], index + 1, j, id, derive, r) == ItemRefers(items, index, j + 1, id, derive, r)
  {
    hide References, Decimal;
  }

  lemma FirstRefers(items: seq<Json>, index: nat, id: Uri, derive: (Uri, string) -> Uri, r: Uri)
    requires items != []
    ensures r in ReferencesOfItems(items, index, id, derive) <==>
      ItemRefers(items, index, 0, id, derive, r) || r in ReferencesOfItems(items[1..], index + 1, id, derive)
  {
    hide References, Decimal;
  }

  lemma MemberReferencesAre(schema: Json, i: nat, own: Uri, derive: (Uri, string) -> Uri, r: Uri)
    requires schema.Obj? && i < |schema.members|
    ensures r in ReferencesOfMember(schema.members[i], own, derive) <==>
      || (schema.members[i].key == "$ref" && schema.members[i].value.Str? && r == derive(own, schema.members[i].value.s))
      || exists step :: RefBelow(schema, own, derive, step, r) && step.i == i
  {
    hide References, ReferencesOfItems;
    var m := schema.members[i];
    var sub := Append(own, Escaped(m.key));
    if m.key != "default" && m.value.Obj? {
      assert r in ReferencesOfMember(m, own, derive) <==> RefBelow(schema, own, derive, Step(i, None), r);
    } else if m.key != "default" && m.value.Arr? {
      ItemReferences(m.value.items, 0, sub, derive, r);
      forall j: nat | j < |m.value.items|
        ensures ItemRefers(m.value.items, 0, j, sub, derive, r) <==> RefBelow(schema, own, derive, Step(i, Some(j)), r)
      {
      }
      hide RefBelow, ItemRefers;
      if step :| RefBelow(schema, own, derive, step, r) && step.i == i {
        RefIntoArray(schema, own, derive, step, r);
      }
    }
  }

  lemma RefIntoArray(schema: Json, own: Uri, derive: (Uri, string) -> Uri, step: Step, r: Uri)
    requires RefBelow(schema, own, derive, step, r) && schema.members[step.i].value.Arr?
    ensures step.j.Some? && step == Step(step.i, Some(step.j.value)) && step.j.value < |schema.members[step.i].value.items|
  {
  }

  // ---------- the rewritten document ----------

  /** What becomes of an item that is no object, or of a member that is neither a reference nor leads anywhere: nothing. */
  predicate ItemRewritten(schema: Json, own: Uri, i: nat, j: nat, now: Json, derive: (Uri, string) -> Uri)
    requires schema.Obj? && i < |schema.members| && schema.members[i].value.Arr? && j < |schema.members[i].value.items|
  {
    var item, step := schema.members[i].value.items[j], Step(i, Some(j));
    if Leads(schema, step) then now == Rewritten(item, TargetName(schema, own, step), derive) else now == item
  }

  predicate MemberRewritten(schema: Json, own: Uri, i: nat, now: Json, derive: (Uri, string) -> Uri)
    requires schema.Obj? && i < |schema.members|
  {
    var (key, was, step) := (schema.members[i].key, schema.members[i].value, Step(i, None));
    if key == "$ref" && was.Str? then now == Str(UriText(derive(own, was.s)))
    else if Leads(schema, step) then now == Rewritten(was, TargetName(schema, own, step), derive)
    else if was.Arr? && key != "default" then
      now.Arr? && |now.items| == |was.items| && forall j :: 0 <= j < |was.items| ==> ItemRewritten(schema, own, i, j, now.items[j], derive)
    else now == was
  }

  /** Every "$ref" of an object that is come to is made absolute, and nothing else is changed. */
  lemma RewrittenIs(schema: Json, id: Uri, derive: (Uri, string) -> Uri)
    requires schema.Obj?
    ensures var own, now := OwnId(schema, id, derive), Rewritten(schema, id, derive);
            && now.Obj? && |now.members| == |schema.members|
            && forall i :: 0 <= i < |schema.members| ==>
                 now.members[i].key == schema.members[i].key && MemberRewritten(schema, own, i, now.members[i].value, derive)
  {
    var own := OwnId(schema, id, derive);
    forall i | 0 <= i < |schema.members|
      ensures i < |RewrittenMembers(schema.members, own, derive)|
      ensures var now := RewrittenMembers(schema.members, own, derive)[i];
              now.key == schema.members[i].key && MemberRewritten(schema, own, i, now.value, derive)
    {
      MembersAt(schema.members, own, derive, i);
      MemberIsRewritten(schema, own, i, derive);
    }
    MembersAt(schema.members, own, derive, 0);
    hide RewrittenMembers, MemberRewritten, OwnId;
  }

  lemma {:induction false} MembersAt(ms: seq<Member>, own: Uri, derive: (Uri, string) -> Uri, i: nat)
    ensures |RewrittenMembers(ms, own, derive)| == |ms|
    ensures i < |ms| ==> RewrittenMembers(ms, own, derive)[i] == Member(ms[i].key, RewrittenValue(ms[i], own, derive))
  {
    hide RewrittenValue;
    if ms != [] {
      MembersAt(ms[1..], own, derive, if i > 0 then i - 1 else 0);
    }
  }

  lemma MemberIsRewritten(schema: Json, own: Uri, i: nat, derive: (Uri, string) -> Uri)
    requires schema.Obj? && i < |schema.members|
    ensures MemberRewritten(schema, own, i, RewrittenValue(schema.members[i], own, derive), derive)
  {
    hide Rewritten, RewrittenItems;
    var m := schema.members[i];
    if m.key != "default" && m.value.Arr? {
      var sub := Append(own, Escaped(m.key));
      forall j | 0 <= j < |m.value.items|
        ensures j < |RewrittenItems(m.value.items, 0, sub, derive)|
        ensures ItemRewritten(schema, own, i, j, RewrittenItems(m.value.items, 0, sub, derive)[j], derive)
      {
        ItemsAt(m.value.items, 0, sub, derive, j);
      }
      ItemsAt(m.value.items, 0, sub, derive, 0);
    }
  }

  lemma {:induction false} ItemsAt(items: seq<Json>, index: nat, id: Uri, derive: (Uri, string) -> Uri, j: nat)
    ensures |RewrittenItems(items, index, id, derive)| == |items|
    ensures j < |items| ==>
      RewrittenItems(items, index, id, derive)[j]
      == if items[j].Obj? then Rewritten(items[j], Append(id, Decimal(index + j)), derive) else items[j]
  {
    hide Rewritten, Decimal;
    if items != [] {
      ItemsAt(items[1..], index + 1, id, derive, if j > 0 then j - 1 else 0);
    }
  }

  // ---------- names ----------

  /** An object with an "id" that is a string is named after it, and any other after its place. */
  lemma NameIs(schema: Json, place: Uri, derive: (Uri, string) -> Uri, i: nat)
    requires schema.Obj? && i < |schema.members| && schema.members[i].key == "id" && DistinctKeys(schema.members)
    ensures OwnId(schema, place, derive) == if schema.members[i].value.Str? then derive(place, schema.members[i].value.s) else place
  {
    FoundAt(schema.members, i);
  }

  lemma NoName(schema: Json, place: Uri, derive: (Uri, string) -> Uri)
    requires schema.Obj? && forall i :: 0 <= i < |schema.members| ==> schema.members[i].key != "id"
    ensures OwnId(schema, place, derive) == place
  {
    var own := Find(schema.members, "id");
  }

  lemma {:induction false} FoundAt(ms: seq<Member>, i: nat)
    requires i < |ms| && DistinctKeys(ms)
    ensures Find(ms, ms[i].key) == [ms[i].value]
  {
    if i > 0 {
      FoundAt(ms[1..], i - 1);
    }
  }
}
