/** The prototype entity store of src/ecs.ts: a comparable 2-component position,
    an `eq` combinator, and a World whose entities are proxies. Writing or
    deleting an attribute of an entity runs a trap that maintains the index
    from attribute name to entities; here the two traps are the methods
    `SetProp` and `DeleteProp`. */
module ProtoEcs {
  import opened Ids
  import opened QueryFold

  // ---------------------------------------------------------------------------
  // Vector2 and its order

  datatype Vector2 = Vector2(x: int, y: int)

  /** The intended key order: by y, then x. */
  predicate KeyLess(a: Vector2, b: Vector2)
  {
    a.y < b.y || (a.y == b.y && a.x < b.x)
  }

  /** `Vector2.compareTo`, with its own branch order: y decides first, equal
      coordinates give 0, and otherwise x decides between 1 and -1. */
  function CompareTo(a: Vector2, o: Vector2): (r: int)
    ensures -1 <= r <= 1
    ensures r == 0 <==> a == o
    ensures r == -1 <==> KeyLess(a, o)
    ensures r == 1 <==> KeyLess(o, a)
  {
    if a.y > o.y then 1
    else if a.y < o.y then -1
    else if a.y == o.y && a.x == o.x then 0
    else if a.x > o.x then 1 else -1
  }

  /** Swapping the arguments negates the answer. */
  lemma CompareToAntisymmetric(a: Vector2, b: Vector2)
    ensures CompareTo(a, b) == -CompareTo(b, a)
  {
  }

  /** The key order is a strict total order. */
  lemma KeyOrderIsStrictTotal(a: Vector2, b: Vector2, c: Vector2)
    ensures !KeyLess(a, a)
    ensures a != b ==> KeyLess(a, b) || KeyLess(b, a)
    ensures KeyLess(a, b) && KeyLess(b, c) ==> KeyLess(a, c)
  {
  }

  /** The rows of the Vector2 unit tests, and a pair on which the order differs
      from (x, y) lexicographic order. */
  lemma CompareToTable()
    ensures CompareTo(Vector2(1, 1), Vector2(1, 0)) == 1 && CompareTo(Vector2(1, 0), Vector2(1, 1)) == -1
    ensures CompareTo(Vector2(1, 1), Vector2(1, 1)) == 0
    ensures CompareTo(Vector2(1, 1), Vector2(1, 2)) == -1
    ensures CompareTo(Vector2(2, 1), Vector2(2, 1)) == 0
    ensures CompareTo(Vector2(1, 21), Vector2(1, 1)) == 1
    ensures CompareTo(Vector2(1, 1), Vector2(2, 1)) == -1
    ensures CompareTo(Vector2(2, 1), Vector2(1, 2)) == -1
  {
  }

  // ---------------------------------------------------------------------------
  // Attribute values and `eq`

  /** An attribute value: a number, a string, a boolean or a comparable position. */
  datatype Value = Num(n: int) | Str(s: string) | Bool(b: bool) | Vec(v: Vector2)

  /** `candidate.compareTo(reference)` with a Vector2 candidate. Against a
      reference that is not a Vector2 every comparison reads `undefined` and
      is false, so the method reaches its last line and answers -1. */
  function CompareWith(a: Vector2, reference: Value): (r: int)
    ensures reference.Vec? ==> (r == 0 <==> a == reference.v)
    ensures !reference.Vec? ==> r == -1
  {
    if reference.Vec? then CompareTo(a, reference.v) else -1
  }

  /** `eq(reference)(candidate)`: compareTo for a Vector2 candidate, `===` otherwise. */
  predicate Eq(reference: Value, candidate: Value)
  {
    if candidate.Vec? then CompareWith(candidate.v, reference) == 0 else candidate == reference
  }

  /** In this file `eq` is plain equality, for every pair of values: a Vector2
      candidate never equals a non-vector reference (compareTo answers -1). */
  lemma EqMeansEqual(reference: Value, candidate: Value)
    ensures Eq(reference, candidate) <==> candidate == reference
  {
  }

  /** `eq(a)(b) == eq(b)(a)`. */
  lemma EqSymmetric(a: Value, b: Value)
    ensures Eq(a, b) == Eq(b, a)
  {
    EqMeansEqual(a, b);
    EqMeansEqual(b, a);
  }

  // ---------------------------------------------------------------------------
  // `indexOf` and `splice(start, 1)` on an index list

  /** `list.indexOf(x)`: the first position of `x`, or -1. */
  function IndexOf(list: seq<string>, x: string): (k: int)
    ensures -1 <= k < |list|
    ensures k == -1 <==> x !in list
    ensures 0 <= k ==> list[k] == x && x !in list[..k]
  {
    if list == [] then -1
    else if list[0] == x then 0
    else
      var k := IndexOf(list[1..], x);
      assert list[1..][..k + 1] == list[1..k + 2] by {
        if k >= 0 {
          assert list[1..][..k] == list[1..k + 1];
        }
      }
      if k == -1 then -1 else k + 1
  }

  /** `list.splice(start, 1)`: a negative start counts back from the end (and
      stops at 0); a start at or past the end removes nothing. */
  function SpliceOne(list: seq<string>, start: int): seq<string>
  {
    var k := if start < 0 then (if |list| + start < 0 then 0 else |list| + start) else start;
    if k >= |list| then list else list[..k] + list[k + 1..]
  }

  /** `list.splice(list.indexOf(x), 1)`, as the delete trap runs it. */
  function SpliceOut(list: seq<string>, x: string): seq<string>
  {
    SpliceOne(list, IndexOf(list, x))
  }

  /** When `x` is listed, its first occurrence goes and nothing else. */
  lemma SpliceOutPresent(list: seq<string>, x: string)
    requires x in list
    ensures |SpliceOut(list, x)| == |list| - 1
    ensures SpliceOut(list, x) == list[..IndexOf(list, x)] + list[IndexOf(list, x) + 1..]
    ensures multiset(SpliceOut(list, x)) == multiset(list) - multiset{x}
  {
    var k := IndexOf(list, x);
    assert SpliceOne(list, k) == list[..k] + list[k + 1..];
    RemoveAt(list, k);
  }

  /** Cutting out position k removes one copy of its entry and nothing else. */
  lemma RemoveAt(list: seq<string>, k: nat)
    requires k < |list|
    ensures multiset(list[..k] + list[k + 1..]) == multiset(list) - multiset{list[k]}
  {
    assert list == list[..k] + [list[k]] + list[k + 1..];
  }

  /** Splicing never introduces an entry. */
  lemma SpliceOneShrinks(list: seq<string>, start: int)
    ensures forall e :: e in SpliceOne(list, start) ==> e in list
  {
    var k := if start < 0 then (if |list| + start < 0 then 0 else |list| + start) else start;
    if k < |list| {
      forall e | e in list[..k] + list[k + 1..]
        ensures e in list
      {
        if e in list[..k] {
          var j :| 0 <= j < k && list[..k][j] == e;
          assert list[j] == e;
        } else {
          var j :| 0 <= j < |list| - k - 1 && list[k + 1..][j] == e;
          assert list[k + 1 + j] == e;
        }
      }
    }
  }

  /** When `x` is not listed, `indexOf` is -1 and the list's last entry goes
      instead: some other entity is dropped from the index. */
  lemma SpliceOutAbsent(list: seq<string>, x: string)
    requires x !in list
    ensures list != [] ==> SpliceOut(list, x) == list[..|list| - 1]
    ensures list == [] ==> SpliceOut(list, x) == []
  {
  }

  /** A concrete case: removing an unlisted entity drops the last one listed. */
  lemma SpliceOutWrongEntry()
    ensures SpliceOut(["srv0", "srv1"], "cln2") == ["srv0"]
  {
    SpliceOutAbsent(["srv0", "srv1"], "cln2");
  }

  // ---------------------------------------------------------------------------
  // The index as the traps leave it

  /** The index after the set trap on `id.p`: a list is created if missing and
      the entity is appended, whether or not it is there already. */
  function SetIndex(index: map<string, seq<string>>, p: string, id: string): map<string, seq<string>>
  {
    index[p := Lookup(index, p) + [id]]
  }

  /** The index after the delete trap on `id.p`: when a list exists it loses
      the entry `splice(indexOf(id), 1)` picks. */
  function DeleteIndex(index: map<string, seq<string>>, p: string, id: string): map<string, seq<string>>
  {
    if p in index then index[p := SpliceOut(index[p], id)] else index
  }

  /** Every write adds one more entry for the entity: writing a property twice
      lists the entity twice. No other list changes. */
  lemma SetIndexCounts(index: map<string, seq<string>>, p: string, id: string)
    ensures multiset(Lookup(SetIndex(index, p, id), p)) == multiset(Lookup(index, p)) + multiset{id}
    ensures forall a :: a != p ==> Lookup(SetIndex(index, p, id), a) == Lookup(index, a)
  {
  }

  /** The delete trap touches only the list under the deleted name, and takes
      at most one entry from it. */
  lemma DeleteIndexScope(index: map<string, seq<string>>, p: string, id: string)
    ensures forall a :: a != p ==> Lookup(DeleteIndex(index, p, id), a) == Lookup(index, a)
    ensures |Lookup(index, p)| - 1 <= |Lookup(DeleteIndex(index, p, id), p)| <= |Lookup(index, p)|
  {
  }

  /** Deleting a property the entity is listed under undoes one write: the
      list holds the same entries as before that write, counted with
      repetition. */
  lemma SetThenDeleteRestores(index: map<string, seq<string>>, p: string, id: string)
    ensures multiset(Lookup(DeleteIndex(SetIndex(index, p, id), p, id), p)) == multiset(Lookup(index, p))
  {
    var written := Lookup(index, p) + [id];
    var set' := SetIndex(index, p, id);
    assert p in set' && set'[p] == written;
    assert DeleteIndex(set', p, id) == set'[p := SpliceOut(written, id)];
    SpliceOutPresent(written, id);
    assert multiset(written) == multiset(Lookup(index, p)) + multiset{id};
  }

  /** Two entities, one write, one delete of a property the second never had:
      the first still carries the property but is no longer listed under it. */
  lemma DeleteDropsWrongEntity()
    ensures DeleteIndex(SetIndex(map[], "hp", "srv0"), "hp", "srv1") == map["hp" := []]
  {
    SpliceOutAbsent(["srv0"], "srv1");
  }

  // ---------------------------------------------------------------------------
  // Queries

  datatype Option<T> = None | Some(value: T)

  /** How `find` ends: it returns a list of entities, or a predicate threw. */
  datatype Outcome = Returned(ids: seq<string>) | Threw

  /** A query clause: an attribute name and the predicate `find` applies to
      `e[name]`. The predicate receives `undefined` (`None`) when the entity
      does not carry the attribute; it answers a boolean, or throws (`None`). */
  type Clause = (string, Option<Value> -> Option<bool>)

  /** `eq(reference)` as a clause predicate. On `undefined`, `isComparable`
      reads `undefined.compareTo` and throws a TypeError. */
  function EqTest(reference: Value): Option<Value> -> Option<bool>
  {
    (v: Option<Value>) => if v.Some? then Some(Eq(reference, v.value)) else None
  }

  /** `e[a]` for the entity `id`: its value, or `undefined`. */
  function ValueAt(table: map<string, map<string, Value>>, id: string, a: string): Option<Value>
    requires id in table
  {
    if a in table[id] then Some(table[id][a]) else None
  }

  /** Every index entry names a known entity. */
  predicate KnownIds(table: map<string, map<string, Value>>, index: map<string, seq<string>>)
  {
    forall a, id :: a in index && id in index[a] ==> id in table
  }

  /** `list.filter(e => test(e[a]))`, on ids; repeated entries are kept. The
      filter throws (`None`) when the test throws on some listed entity. */
  function Matching(table: map<string, map<string, Value>>, list: seq<string>, a: string,
                    test: Option<Value> -> Option<bool>): (r: Option<seq<string>>)
    requires forall id :: id in list ==> id in table
    ensures r.None? <==> exists id :: id in list && test(ValueAt(table, id, a)).None?
    ensures r.Some? ==> forall id :: id in r.value <==> id in list && test(ValueAt(table, id, a)) == Some(true)
    ensures r.Some? ==> forall id :: id in list && test(ValueAt(table, id, a)) == Some(true) ==>
      multiset(r.value)[id] == multiset(list)[id]
  {
    if list == [] then Some([])
    else
      assert list == [list[0]] + list[1..];
      match test(ValueAt(table, list[0], a))
      case None => None
      case Some(pass) =>
        match Matching(table, list[1..], a, test)
        case None => None
        case Some(rest) => Some((if pass then [list[0]] else []) + rest)
  }

  /** `(propertiesToEntities.get(c.0) || []).filter(e => c.1(e[c.0]))`. */
  function Candidates(table: map<string, map<string, Value>>, index: map<string, seq<string>>, c: Clause): Option<seq<string>>
    requires KnownIds(table, index)
  {
    Matching(table, Lookup(index, c.0), c.0, c.1)
  }

  /** No clause's filter throws. */
  predicate NoThrow(table: map<string, map<string, Value>>, index: map<string, seq<string>>, query: seq<Clause>)
    requires KnownIds(table, index)
  {
    forall i :: 0 <= i < |query| ==> Candidates(table, index, query[i]).Some?
  }

  /** One candidate list per query clause, in query order. */
  function CandidateLists(table: map<string, map<string, Value>>, index: map<string, seq<string>>, query: seq<Clause>): (r: seq<seq<string>>)
    requires KnownIds(table, index)
    requires NoThrow(table, index, query)
    ensures |r| == |query|
  {
    seq(|query|, i requires 0 <= i < |query| => Candidates(table, index, query[i]).value)
  }

  /** The loop consumes one more clause whose filter does not throw. */
  lemma FoldStep(table: map<string, map<string, Value>>, index: map<string, seq<string>>, query: seq<Clause>, i: nat)
    requires KnownIds(table, index)
    requires i < |query|
    requires NoThrow(table, index, query[..i])
    requires Candidates(table, index, query[i]).Some?
    ensures NoThrow(table, index, query[..i + 1])
    ensures Sweep(CandidateLists(table, index, query[..i + 1]))
         == Step(Sweep(CandidateLists(table, index, query[..i])), Candidates(table, index, query[i]).value)
  {
    var front, front' := query[..i], query[..i + 1];
    forall j | 0 <= j < i + 1
      ensures Candidates(table, index, front'[j]).Some?
    {
      if j < i {
        assert front'[j] == front[j];
      }
    }
    var longer := CandidateLists(table, index, front');
    var shorter := CandidateLists(table, index, front);
    assert longer[..i] == shorter by {
      forall j | 0 <= j < i
        ensures longer[j] == shorter[j]
      {
        assert front'[j] == front[j];
      }
    }
    assert longer[i] == Candidates(table, index, query[i]).value;
    SweepStep(longer, i);
    assert longer[..i + 1] == longer;
  }

  /** The entity is listed under the clause's name and the clause's test
      passes on `e[name]`. */
  predicate Passes(table: map<string, map<string, Value>>, index: map<string, seq<string>>, c: Clause, id: string)
  {
    id in Lookup(index, c.0) && id in table && c.1(ValueAt(table, id, c.0)) == Some(true)
  }

  /** Each candidate list holds exactly the entities passing its clause. */
  lemma CandidatesPass(table: map<string, map<string, Value>>, index: map<string, seq<string>>, query: seq<Clause>, i: nat)
    requires KnownIds(table, index)
    requires NoThrow(table, index, query)
    requires i < |query|
    ensures forall id :: id in CandidateLists(table, index, query)[i] <==> Passes(table, index, query[i], id)
  {
    assert Candidates(table, index, query[i]).Some?;
  }

  /** What a non-empty query answers when no filter throws. Every answer
      passes the last clause. While the running result never empties, the
      answer is the first clause's candidates that pass every later clause,
      in the first clause's order: exactly the entities passing every clause. */
  lemma FindMatchesAll(table: map<string, map<string, Value>>, index: map<string, seq<string>>, query: seq<Clause>)
    requires KnownIds(table, index)
    requires NoThrow(table, index, query)
    requires |query| > 0
    ensures forall id :: id in Sweep(CandidateLists(table, index, query)) ==> Passes(table, index, query[|query| - 1], id)
    ensures NeverEmpty(CandidateLists(table, index, query)) ==>
      && Sweep(CandidateLists(table, index, query))
         == KeepInAll(CandidateLists(table, index, query)[0], CandidateLists(table, index, query)[1..])
      && forall id :: id in Sweep(CandidateLists(table, index, query)) <==>
           forall i :: 0 <= i < |query| ==> Passes(table, index, query[i], id)
  {
    var lists := CandidateLists(table, index, query);
    CandidatesPass(table, index, query, |query| - 1);
    if NeverEmpty(lists) {
      SweepIsIntersection(lists);
      SweepMembership(lists);
      forall id
        ensures InAll(id, lists) <==> forall i :: 0 <= i < |query| ==> Passes(table, index, query[i], id)
      {
        if InAll(id, lists) {
          forall i | 0 <= i < |query|
            ensures Passes(table, index, query[i], id)
          {
            CandidatesPass(table, index, query, i);
            assert id in lists[i];
          }
        } else {
          var j :| 0 <= j < |lists| && id !in lists[j];
          CandidatesPass(table, index, query, j);
        }
      }
    }
  }

  /** Every entity listed under a queried name is known and still carries
      that name, so no test is applied to `undefined`. */
  predicate NotStale(table: map<string, map<string, Value>>, index: map<string, seq<string>>, query: seq<Clause>)
  {
    forall i, id :: 0 <= i < |query| && id in Lookup(index, query[i].0) ==> id in table && query[i].0 in table[id]
  }

  /** The test never throws on a value. */
  ghost predicate Total(c: Clause)
  {
    forall v :: c.1(Some(v)).Some?
  }

  /** With no stale entry, a query whose tests never throw on a value (as
      `eq`'s does not) does not throw. */
  lemma FreshIndexNoThrow(table: map<string, map<string, Value>>, index: map<string, seq<string>>, query: seq<Clause>)
    requires KnownIds(table, index)
    requires NotStale(table, index, query)
    requires forall i :: 0 <= i < |query| ==> Total(query[i])
    ensures NoThrow(table, index, query)
  {
    forall i | 0 <= i < |query|
      ensures Candidates(table, index, query[i]).Some?
    {
      var c := query[i];
      forall id | id in Lookup(index, c.0)
        ensures c.1(ValueAt(table, id, c.0)).Some?
      {
        assert ValueAt(table, id, c.0) == Some(table[id][c.0]);
      }
    }
  }

  /** A stale entry under a name queried with a test that throws on
      `undefined`, as `eq`'s does, makes the whole query throw. */
  lemma StaleThrows(table: map<string, map<string, Value>>, index: map<string, seq<string>>, query: seq<Clause>, i: nat, id: string)
    requires KnownIds(table, index)
    requires i < |query|
    requires id in Lookup(index, query[i].0) && id in table && query[i].0 !in table[id]
    requires query[i].1(None).None?
    ensures !NoThrow(table, index, query)
  {
    assert ValueAt(table, id, query[i].0) == None;
  }

  /** `eq` as a clause: it tests a value with `Eq` and throws on `undefined`. */
  lemma EqTestMeaning(reference: Value)
    ensures Total(("", EqTest(reference)))
    ensures EqTest(reference)(None).None?
    ensures forall v :: EqTest(reference)(Some(v)) == Some(Eq(reference, v))
  {
  }

  /** Writing the same property twice makes one query clause report the
      entity twice. */
  lemma DoubleWriteDoubleAnswer()
    ensures Candidates(map["srv0" := map["hp" := Num(3)]],
                       SetIndex(SetIndex(map[], "hp", "srv0"), "hp", "srv0"),
                       ("hp", (v: Option<Value>) => Some(true))) == Some(["srv0", "srv0"])
  {
    var table := map["srv0" := map["hp" := Num(3)]];
    var test := (v: Option<Value>) => Some(true);
    assert test(ValueAt(table, "srv0", "hp")) == Some(true);
    assert Matching(table, [], "hp", test) == Some([]);
    assert Matching(table, ["srv0"], "hp", test) == Some(["srv0"]) by {
      var l: seq<string> := ["srv0"];
      assert l[0] == "srv0" && l[1..] == [];
      assert test(ValueAt(table, l[0], "hp")) == Some(true);
      assert Matching(table, l[1..], "hp", test) == Some([]);
      assert [l[0]] + [] == ["srv0"];
    }
    assert Matching(table, ["srv0", "srv0"], "hp", test) == Some(["srv0", "srv0"]) by {
      var l: seq<string> := ["srv0", "srv0"];
      assert l[0] == "srv0" && l[1..] == ["srv0"];
      assert [l[0]] + ["srv0"] == ["srv0", "srv0"];
    }
  }

  // ---------------------------------------------------------------------------
  // The World's invariant

  /** The k-th entity was made from counter value k, `table` describes exactly
      the created entities, and every index entry names one of them. */
  ghost predicate WorldInvariant(counter: nat, entities: seq<string>, table: map<string, map<string, Value>>,
                                 index: map<string, seq<string>>)
  {
    && |entities| == counter
    && (forall i :: 0 <= i < |entities| ==> IsIdFor(entities[i], i))
    && (forall id :: id in table <==> id in entities)
    && KnownIds(table, index)
  }

  /** Creating the next entity keeps the invariant. */
  lemma CreateKeepsInvariant(counter: nat, entities: seq<string>, table: map<string, map<string, Value>>,
                             index: map<string, seq<string>>, p: Prefix)
    requires WorldInvariant(counter, entities, table, index)
    ensures IdOf(p, counter) !in table
    ensures WorldInvariant(counter + 1, entities + [IdOf(p, counter)], table[IdOf(p, counter) := map[]], index)
  {
    var id := IdOf(p, counter);
    NextIdFresh(entities, p, counter);
    var entities' := entities + [id];
    forall i | 0 <= i < |entities'|
      ensures IsIdFor(entities'[i], i)
    {
      if i < |entities| {
        assert entities'[i] == entities[i];
      }
    }
  }

  /** The set trap keeps the invariant. */
  lemma SetKeepsInvariant(counter: nat, entities: seq<string>, table: map<string, map<string, Value>>,
                          index: map<string, seq<string>>, id: string, p: string, value: Value)
    requires WorldInvariant(counter, entities, table, index)
    requires id in table
    ensures WorldInvariant(counter, entities, table[id := table[id][p := value]], SetIndex(index, p, id))
  {
  }

  /** The delete trap keeps the invariant, whichever entry it splices out. */
  lemma DeleteKeepsInvariant(counter: nat, entities: seq<string>, table: map<string, map<string, Value>>,
                             index: map<string, seq<string>>, id: string, p: string)
    requires WorldInvariant(counter, entities, table, index)
    requires id in table
    ensures WorldInvariant(counter, entities, table[id := table[id] - {p}], DeleteIndex(index, p, id))
  {
    if p in index {
      SpliceOneShrinks(index[p], IndexOf(index[p], id));
    }
  }

  // ---------------------------------------------------------------------------
  // The World

  class World {
    /** The id counter, shared by both prefixes. */
    var counter: nat
    /** `entities`: the created entities, in creation order, by id. */
    var entities: seq<string>
    /** The attributes each entity object carries, by id. */
    var table: map<string, map<string, Value>>
    /** `propertiesToEntities`: attribute name to the ids written under it, one
        entry per write. */
    var index: map<string, seq<string>>

    ghost predicate Valid()
      reads this
    {
      WorldInvariant(counter, entities, table, index)
    }

    /** `new World()`, with the default empty `entities`. */
    constructor ()
      ensures Valid()
      ensures counter == 0 && entities == [] && table == map[] && index == map[]
    {
      counter := 0;
      entities := [];
      table := map[];
      index := map[];
    }

    /** `createEntity(prefix)`: a fresh id from the shared counter and an
        entity with no attributes, appended to `entities`. */
    method CreateEntity(prefix: Prefix) returns (id: string)
      requires Valid()
      modifies this
      ensures Valid()
      ensures id == IdOf(prefix, old(counter)) && id !in old(table)
      ensures counter == old(counter) + 1
      ensures entities == old(entities) + [id]
      ensures table == old(table)[id := map[]]
      ensures index == old(index)
    {
      CreateKeepsInvariant(counter, entities, table, index, prefix);
      id := IdOf(prefix, counter);
      counter := counter + 1;
      entities := entities + [id];
      table := table[id := map[]];
    }

    /** The `set` trap for `entity[p] = value`: list the entity under `p`
        (again, if it is there already), then write the value. */
    method SetProp(id: string, p: string, value: Value)
      requires Valid()
      requires id in table && p != "id"
      modifies this
      ensures Valid()
      ensures counter == old(counter) && entities == old(entities)
      ensures table == old(table)[id := old(table)[id][p := value]]
      ensures index == SetIndex(old(index), p, id)
    {
      SetKeepsInvariant(counter, entities, table, index, id, p, value);
      if p !in index {
        index := index[p := []];
      }
      var setOfEntities := index[p];
      index := index[p := setOfEntities + [id]];
      table := table[id := table[id][p := value]];
    }

    /** The `deleteProperty` trap for `delete entity[p]`: splice the entry
        `indexOf` finds out of the list under `p`, if there is a list, then
        remove the attribute. */
    method DeleteProp(id: string, p: string)
      requires Valid()
      requires id in table && p != "id"
      modifies this
      ensures Valid()
      ensures counter == old(counter) && entities == old(entities)
      ensures table == old(table)[id := old(table)[id] - {p}]
      ensures index == DeleteIndex(old(index), p, id)
    {
      DeleteKeepsInvariant(counter, entities, table, index, id, p);
      if p in index {
        var setOfEntities := index[p];
        index := index[p := SpliceOne(setOfEntities, IndexOf(setOfEntities, id))];
      }
      table := table[id := table[id] - {p}];
    }

    /** `find(query)`: every entity, in creation order, for an empty query;
        otherwise the fold of the per-clause candidate lists, unless some
        clause's test throws. */
    method Find(query: seq<Clause>) returns (r: Outcome)
      requires Valid()
      ensures |query| == 0 ==> r == Returned(entities) && Distinct(entities)
      ensures |query| > 0 ==> (r == Threw <==> !NoThrow(table, index, query))
      ensures |query| > 0 && NoThrow(table, index, query) ==> r == Returned(Sweep(CandidateLists(table, index, query)))
    {
      if |query| == 0 {
        IssuedIdsDistinct(entities);
        return Returned(entities);
      }
      var results: seq<string> := [];
      for i := 0 to |query|
        invariant NoThrow(table, index, query[..i])
        invariant results == Sweep(CandidateLists(table, index, query[..i]))
      {
        var prop, test := query[i].0, query[i].1;
        var newAdditions := Matching(table, Lookup(index, prop), prop, test);
        if newAdditions.None? {
          assert !NoThrow(table, index, query) by {
            assert Candidates(table, index, query[i]).None?;
          }
          return Threw;
        }
        FoldStep(table, index, query, i);
        if |results| == 0 {
          results := newAdditions.value;
        } else {
          results := Keep(results, newAdditions.value);
        }
      }
      assert query[..|query|] == query;
      r := Returned(results);
    }
  }

  /** A stale entry is reachable: srv0 is written under hp twice, then hp is
      deleted once. The set trap listed srv0 twice and the delete trap took
      one entry, so srv0 stays listed under hp without carrying it, and a
      query on hp with `eq` throws. */
  method StaleEntryThrows() returns (r: Outcome)
    ensures r == Threw
  {
    var w := new World();
    var id := w.CreateEntity(Srv);
    w.SetProp(id, "hp", Num(3));
    w.SetProp(id, "hp", Num(3));
    w.DeleteProp(id, "hp");
    assert Lookup(w.index, "hp") == [id];
    assert "hp" !in w.table[id];
    EqTestMeaning(Num(3));
    StaleThrows(w.table, w.index, [("hp", EqTest(Num(3)))], 0, id);
    r := w.Find([("hp", EqTest(Num(3)))]);
  }

  /** The wrong-entry delete, driven through a World: srv0 is written under
      hp, then hp is deleted on srv1, which never had it. The hp list ends
      empty while srv0 still carries hp. */
  method WrongEntryDelete() returns (hpList: seq<string>, srv0CarriesHp: bool)
    ensures hpList == [] && srv0CarriesHp
  {
    var w := new World();
    var first := w.CreateEntity(Srv);
    var second := w.CreateEntity(Srv);
    w.SetProp(first, "hp", Num(3));
    SpliceOutAbsent([first], second);
    w.DeleteProp(second, "hp");
    hpList := Lookup(w.index, "hp");
    srv0CarriesHp := "hp" in w.table[first];
  }
}
