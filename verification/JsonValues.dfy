/** JSON values; numbers are integers. */
module JsonValues {

  /** What is kept of a number without a fraction: 64 bits, and as the parser makes them unsigned unless
      it is negative. */
  type JsonInt = n: int | -0x8000_0000_0000_0000 <= n < 0x1_0000_0000_0000_0000

  /** The members of an object are in the order of their keys, as in the library's maps, so that equal
      objects are equal sequences. */
  datatype Member = Member(key: string, value: Json)

  datatype Json =
    | Null
    | Bool(b: bool)
    | Int(n: JsonInt)
    | Str(s: string)
    | Arr(items: seq<Json>)
    | Obj(members: seq<Member>)

  /** `find`: the value of a key, if there is one. */
  function Find(members: seq<Member>, key: string): (r: seq<Json>)
    ensures |r| <= 1
    ensures |r| == 1 ==> Member(key, r[0]) in members
    ensures |r| == 0 ==> forall m :: m in members ==> m.key != key
  {
    if members == [] then [] else if members[0].key == key then [members[0].value] else Find(members[1..], key)
  }

  /** Objects are maps: no key twice. */
  predicate DistinctKeys(members: seq<Member>) {
    forall i, j :: 0 <= i < j < |members| ==> members[i].key != members[j].key
  }
}
