/** The cache of condition results: keyed by id, kept fresh by a digest of keyword values. */
module ConditionCache {
  import opened Conditions

  /** The values of the keywords, one after the other; a missing one counts as "". */
  function Values(keywords: seq<string>, data: Data): string {
    if keywords == [] then "" else ValueOr(data, keywords[0]) + Values(keywords[1..], data)
  }

  function ValueOr(data: Data, key: string): string {
    match Get(data, key) case Some(v) => v case None => ""
  }

  function Digest(keywords: seq<string>, data: Data, o: Outside): seq<nat> {
    o.hash(Values(keywords, data))
  }

  /** What is remembered of an id: its keywords, and its first result with its digest. */
  datatype Entry = Entry(keywords: seq<string>, result: bool, digest: seq<nat>)

  type Memory = map<string, Entry>

  /** One evaluation: the answer, and the memory after it. */
  function Answer(memory: Memory, e: Element, data: Data, o: Outside): bool {
    var id := Attribute(e, "id");
    if id == "" then true
    else if id in memory && Digest(memory[id].keywords, data, o) == memory[id].digest then memory[id].result
    else Evaluate(e, data, o)
  }

  function Remember(memory: Memory, e: Element, data: Data, o: Outside): Memory {
    var id := Attribute(e, "id");
    if id == "" || id in memory then memory
    else memory[id := Entry(Keywords(e), Evaluate(e, data, o), Digest(Keywords(e), data, o))]
  }

  /** `insert` of a map keeps what is there already. */
  function Insert<K, V>(m: map<K, V>, key: K, value: V): map<K, V> {
    if key in m then m else m[key := value]
  }

  class ConditionManager {
    var keywordMap: map<string, seq<string>>
    var resultCache: map<string, (bool, seq<nat>)>
    const o: Outside

    ghost predicate Valid()
      reads this
    {
      keywordMap.Keys == resultCache.Keys
    }

    ghost function Contents(): Memory
      reads this
      requires Valid()
    {
      map id | id in keywordMap :: Entry(keywordMap[id], resultCache[id].0, resultCache[id].1)
    }

    constructor (o: Outside)
      ensures Valid() && Contents() == map[] && this.o == o
    {
      this.o := o;
      keywordMap, resultCache := map[], map[];
    }

    method GetHashKV(keywords: seq<string>, data: Data) returns (digest: seq<nat>)
      ensures digest == Digest(keywords, data, o)
    {
      var kv := "";
      for i := 0 to |keywords|
        invariant kv + Values(keywords[i..], data) == Values(keywords, data)
      {
        OneValue(kv, keywords, i, data);
        kv := kv + ValueOr(data, keywords[i]);
      }
      assert kv == Values(keywords, data);
      digest := o.hash(kv);
    }

    method Evalue(node: Option<Element>, data: Data) returns (result: bool)
      requires Valid()
      modifies this
      ensures Valid()
      ensures node == None ==> !result && Contents() == old(Contents())
      ensures node.Some? ==> result == Answer(old(Contents()), node.value, data, o)
      ensures node.Some? ==> Contents() == Remember(old(Contents()), node.value, data, o)
    {
      hide Evaluate, Keywords, Digest, Attribute;
      if node == None {
        return false;
      }
      var e := node.value;
      var id := Attribute(e, "id");
      if id == "" {
        return true;
      }
      ghost var was := Contents();
      var digest := KeywordDigest(e, id, data);
      result := CachedResult(e, id, digest, data);
      assert id in was ==> Contents() == was;
      assert id !in was ==> Contents() == was[id := Entry(Keywords(e), result, digest)];
    }

    /** The digest of the keywords known for id, which are collected the first time. */
    method KeywordDigest(e: Element, id: string, data: Data) returns (digest: seq<nat>)
      modifies this`keywordMap
      ensures keywordMap == Insert(old(keywordMap), id, Keywords(e))
      ensures digest == Digest(keywordMap[id], data, o)
    {
      if id in keywordMap {
        digest := GetHashKV(keywordMap[id], data);
      } else {
        var keywords := KeywordSearch(e, []);
        assert keywords == Keywords(e);
        digest := GetHashKV(keywords, data);
        keywordMap := Insert(keywordMap, id, keywords);
      }
    }

    /** The result kept for id if the digest is unchanged, and else a fresh one. */
    method CachedResult(e: Element, id: string, digest: seq<nat>, data: Data) returns (result: bool)
      modifies this`resultCache
      ensures resultCache == Insert(old(resultCache), id, (Evaluate(e, data, o), digest))
      ensures result == if id in old(resultCache) && digest == old(resultCache)[id].1 then old(resultCache)[id].0
                        else Evaluate(e, data, o)
    {
      if id !in resultCache {
        result := EvaluateElement(e, data, o);
        resultCache := Insert(resultCache, id, (result, digest));
      } else if digest == resultCache[id].1 {
        result := resultCache[id].0;
      } else {
        result := EvaluateElement(e, data, o);
        resultCache := Insert(resultCache, id, (result, digest));
      }
    }

    /** `getEvalResultById`: a leading tilde negates. */
    method GetEvalResultById(id: string) returns (result: bool)
      requires Valid()
      ensures result == ById(Contents(), id)
    {
      if id == "" {
        return true;
      }
      var name, negate := id, false;
      if id[0] == '~' {
        negate := true;
        name := id[1..];
      }
      if name == "" || name !in resultCache {
        return true;
      }
      return negate == !resultCache[name].0;
    }
  }

  predicate ById(memory: Memory, id: string) {
    var negate := id != "" && id[0] == '~';
    var name := if negate then id[1..] else id;
    name != "" && name in memory ==> memory[name].result != negate
  }

  lemma OneValue(kv: string, keywords: seq<string>, i: nat, data: Data)
    requires i < |keywords|
    ensures kv + Values(keywords[i..], data) == kv + ValueOr(data, keywords[i]) + Values(keywords[i + 1..], data)
  {
    assert keywords[i..][1..] == keywords[i + 1..];
  }

  // ---------- runs ----------

  datatype Call = Call(e: Element, data: Data)

  function Id(c: Call): string {
    Attribute(c.e, "id")
  }

  /** The memory after a run of evaluations between which the data change at will. */
  function MemoryAfter(calls: seq<Call>, o: Outside): Memory {
    if calls == [] then map[]
    else Remember(MemoryAfter(calls[..|calls| - 1], o), calls[|calls| - 1].e, calls[|calls| - 1].data, o)
  }

  /** The answer to the i-th call of a run. */
  function AnswerAt(calls: seq<Call>, i: nat, o: Outside): bool
    requires i < |calls|
  {
    Answer(MemoryAfter(calls[..i], o), calls[i].e, calls[i].data, o)
  }

  /** A manager answers a run as the functions say. */
  method EvaluateRun(calls: seq<Call>, o: Outside) returns (answers: seq<bool>)
    ensures |answers| == |calls|
    ensures forall i :: 0 <= i < |calls| ==> answers[i] == AnswerAt(calls, i, o)
  {
    hide Answer, Remember;
    var manager := new ConditionManager(o);
    answers := [];
    for i := 0 to |calls|
      invariant manager.Valid() && manager.o == o && manager.Contents() == MemoryAfter(calls[..i], o)
      invariant |answers| == i && forall j :: 0 <= j < i ==> answers[j] == AnswerAt(calls, j, o)
    {
      var answer := manager.Evalue(Some(calls[i].e), calls[i].data);
      answers := answers + [answer];
      assert calls[..i + 1][..i] == calls[..i];
    }
    assert calls[..|calls|] == calls;
  }

  /** f is the first call with the id of the i-th. */
  predicate IsFirst(calls: seq<Call>, f: nat, i: nat) {
    f <= i < |calls| && Id(calls[f]) == Id(calls[i]) && forall j :: 0 <= j < f ==> Id(calls[j]) != Id(calls[i])
  }

  function EntryOf(c: Call, o: Outside): Entry {
    Entry(Keywords(c.e), Evaluate(c.e, c.data, o), Digest(Keywords(c.e), c.data, o))
  }

  /** What is remembered of an id is what its first call found, and stays so. */
  lemma {:induction false} FirstIsKept(calls: seq<Call>, f: nat, o: Outside)
    requires f < |calls| && IsFirst(calls, f, f) && Id(calls[f]) != ""
    ensures Id(calls[f]) in MemoryAfter(calls, o) && MemoryAfter(calls, o)[Id(calls[f])] == EntryOf(calls[f], o)
  {
    hide Evaluate, Keywords, Digest, Attribute;
    var n := |calls| - 1;
    if f < n {
      FirstIsKept(calls[..n], f, o);
    } else {
      NotYet(calls[..n], Id(calls[f]), o);
    }
  }

  lemma {:induction false} NotYet(calls: seq<Call>, id: string, o: Outside)
    requires forall j :: 0 <= j < |calls| ==> Id(calls[j]) != id
    ensures id !in MemoryAfter(calls, o)
  {
    if calls != [] {
      NotYet(calls[..|calls| - 1], id, o);
    }
  }

  lemma {:induction false} FirstExists(calls: seq<Call>, i: nat) returns (f: nat)
    requires i < |calls|
    ensures IsFirst(calls, f, i)
  {
    f := 0;
    while Id(calls[f]) != Id(calls[i])
      invariant f <= i && forall j :: 0 <= j < f ==> Id(calls[j]) != Id(calls[i])
      decreases i - f
    {
      f := f + 1;
    }
  }

  /** The i-th answer of a run is what evaluating afresh gives, exactly when equal digests of the
      first call with its id and of this one imply equal results. */
  lemma AnswerIsFresh(calls: seq<Call>, f: nat, i: nat, o: Outside)
    requires IsFirst(calls, f, i) && Id(calls[i]) != ""
    ensures AnswerAt(calls, i, o) == Evaluate(calls[i].e, calls[i].data, o) <==>
      (f < i && Digest(Keywords(calls[f].e), calls[f].data, o) == Digest(Keywords(calls[f].e), calls[i].data, o)
       ==> Evaluate(calls[f].e, calls[f].data, o) == Evaluate(calls[i].e, calls[i].data, o))
  {
    var before := calls[..i];
    if f < i {
      FirstIsKept(before, f, o);
    } else {
      NotYet(before, Id(calls[i]), o);
    }
  }

  /** Every id names one node. */
  predicate OneNodeAnId(calls: seq<Call>) {
    forall i, j :: 0 <= i < |calls| && 0 <= j < |calls| && Id(calls[i]) == Id(calls[j]) ==> calls[i].e == calls[j].e
  }

  /** The digest tells apart data that differ on the keywords. */
  predicate Separates(keywords: seq<string>, a: Data, b: Data, o: Outside) {
    Digest(keywords, a, o) == Digest(keywords, b, o) ==> Agree(a, b, keywords)
  }

  /** Over any run, if trees look only at collected keywords and digests separate the data, all
      answers are fresh. */
  lemma CacheIsTransparent(calls: seq<Call>, o: Outside)
    requires OneNodeAnId(calls)
    requires forall i :: 0 <= i < |calls| ==> Covered(calls[i].e)
    requires forall i, j :: 0 <= i < j < |calls| && Id(calls[i]) == Id(calls[j]) ==>
      Separates(Keywords(calls[i].e), calls[i].data, calls[j].data, o)
    ensures forall i :: 0 <= i < |calls| ==>
      AnswerAt(calls, i, o) == (Id(calls[i]) == "" || Evaluate(calls[i].e, calls[i].data, o))
  {
    forall i | 0 <= i < |calls| && Id(calls[i]) != ""
      ensures AnswerAt(calls, i, o) == Evaluate(calls[i].e, calls[i].data, o)
    {
      var f := FirstExists(calls, i);
      AnswerIsFresh(calls, f, i, o);
      if f < i && Agree(calls[f].data, calls[i].data, Keywords(calls[f].e)) {
        Footprint(calls[f].e, calls[f].data, calls[i].data, o);
      }
    }
  }

  /** A run that evaluates one node over and over, on data from a given set. */
  predicate RunOf(calls: seq<Call>, e: Element, datas: set<Data>) {
    forall i :: 0 <= i < |calls| ==> calls[i].e == e && calls[i].data in datas
  }

  predicate AllFresh(calls: seq<Call>, o: Outside) {
    forall i :: 0 <= i < |calls| ==> AnswerAt(calls, i, o) == Evaluate(calls[i].e, calls[i].data, o)
  }

  predicate DigestDecides(e: Element, datas: set<Data>, o: Outside) {
    forall a, b :: a in datas && b in datas && Digest(Keywords(e), a, o) == Digest(Keywords(e), b, o) ==>
      Evaluate(e, a, o) == Evaluate(e, b, o)
  }

  /** The cache can be relied on for a node over a set of data, whatever the order of the calls,
      exactly when equal digests mean equal results there. */
  lemma CacheIsRightIff(e: Element, datas: set<Data>, o: Outside)
    requires Attribute(e, "id") != ""
    ensures DigestDecides(e, datas, o) <==> forall calls: seq<Call> :: RunOf(calls, e, datas) ==> AllFresh(calls, o)
  {
    if DigestDecides(e, datas, o) {
      forall calls: seq<Call> | RunOf(calls, e, datas) ensures AllFresh(calls, o) {
        forall i | 0 <= i < |calls| ensures AnswerAt(calls, i, o) == Evaluate(calls[i].e, calls[i].data, o) {
          var f := FirstExists(calls, i);
          AnswerIsFresh(calls, f, i, o);
        }
      }
    } else {
      var a, b :| a in datas && b in datas && Digest(Keywords(e), a, o) == Digest(Keywords(e), b, o)
                  && Evaluate(e, a, o) != Evaluate(e, b, o);
      var calls := [Call(e, a), Call(e, b)];
      assert RunOf(calls, e, datas);
      AnswerIsFresh(calls, 0, 1, o);
      assert AnswerAt(calls, 1, o) != Evaluate(calls[1].e, calls[1].data, o);
    }
  }

  /** Asked for by its id, a condition has the result of its first evaluation, not of its last. */
  lemma ByIdIsFirst(calls: seq<Call>, f: nat, o: Outside)
    requires f < |calls| && IsFirst(calls, f, f) && Id(calls[f]) != "" && Id(calls[f])[0] != '~'
    ensures ById(MemoryAfter(calls, o), Id(calls[f])) == Evaluate(calls[f].e, calls[f].data, o)
    ensures ById(MemoryAfter(calls, o), "~" + Id(calls[f])) == !Evaluate(calls[f].e, calls[f].data, o)
  {
    FirstIsKept(calls, f, o);
    assert ("~" + Id(calls[f]))[1..] == Id(calls[f]);
  }

  /** A condition that was never evaluated holds, with a tilde before its id and without. */
  lemma UnknownHolds(calls: seq<Call>, id: string, o: Outside)
    requires forall j :: 0 <= j < |calls| ==> Id(calls[j]) != id
    requires id == "" || id[0] != '~'
    ensures ById(MemoryAfter(calls, o), id) && ById(MemoryAfter(calls, o), "~" + id)
  {
    NotYet(calls, id, o);
    assert ("~" + id)[1..] == id;
  }
}
