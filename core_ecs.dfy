/** The entity-component store of src/core/ecs.ts: a comparable 3-component
    position, predicate combinators over attribute values, and the World that
    hands out ids, stores each entity's attributes, keeps an index from
    attribute name to the entities carrying it, and answers queries. */
module CoreEcs {
  import opened Ids
  import opened QueryFold

  // ---------------------------------------------------------------------------
  // Vector3 and its order

  datatype Vector3 = Vector3(x: int, y: int, z: int)

  /** The intended key order: by y, then x, then z (y dominates). */
  predicate KeyLess(a: Vector3, b: Vector3)
  {
    a.y < b.y || (a.y == b.y && (a.x < b.x || (a.x == b.x && a.z < b.z)))
  }

  /** `Vector3.compareTo`: a three-way comparison in the key order. */
  function CompareTo(a: Vector3, o: Vector3): (r: int)
    ensures -1 <= r <= 1
    ensures r == 0 <==> a == o
    ensures r == -1 <==> KeyLess(a, o)
    ensures r == 1 <==> KeyLess(o, a)
  {
    if a.y > o.y then 1
    else if a.y < o.y then -1
    else if a.x > o.x then 1
    else if a.x < o.x then -1
    else if a.z > o.z then 1
    else if a.z < o.z then -1
    else 0
  }

  /** Swapping the arguments negates the answer. */
  lemma CompareToAntisymmetric(a: Vector3, b: Vector3)
    ensures CompareTo(a, b) == -CompareTo(b, a)
  {
  }

  /** The key order is a strict total order. */
  lemma KeyOrderIsStrictTotal(a: Vector3, b: Vector3, c: Vector3)
    ensures !KeyLess(a, a)
    ensures a != b ==> KeyLess(a, b) || KeyLess(b, a)
    ensures KeyLess(a, b) && KeyLess(b, c) ==> KeyLess(a, c)
  {
  }

  /** The comparison table of the unit tests, and a pair on which the order
      differs from (x, y, z) lexicographic order. */
  lemma CompareToTable()
    ensures CompareTo(Vector3(1, 1, 0), Vector3(1, 2, 0)) == -1
    ensures CompareTo(Vector3(2, 1, 0), Vector3(2, 1, 0)) == 0
    ensures CompareTo(Vector3(1, 21, 0), Vector3(1, 1, 0)) == 1
    ensures CompareTo(Vector3(1, 1, 0), Vector3(2, 1, 0)) == -1
    ensures CompareTo(Vector3(2, 1, 0), Vector3(1, 2, 0)) == -1
  {
  }

  // ---------------------------------------------------------------------------
  // Attribute values and native ordering

  /** An attribute value: a number, a string, a boolean or a comparable position. */
  datatype Value = Num(n: int) | Str(s: string) | Bool(b: bool) | Vec(v: Vector3)

  predicate SameVariant(a: Value, b: Value)
  {
    (a.Num? && b.Num?) || (a.Str? && b.Str?) || (a.Bool? && b.Bool?) || (a.Vec? && b.Vec?)
  }

  /** `<` on two strings, character by character, a proper prefix first. A
      Dafny `char` is a Unicode scalar value, so characters are ordered by
      code point; JavaScript orders UTF-16 code units, and the two orders
      agree except on characters beyond U+FFFF. */
  predicate StrLess(a: string, b: string)
  {
    |b| > 0 && (|a| == 0 || a[0] < b[0] || (a[0] == b[0] && StrLess(a[1..], b[1..])))
  }

  /** Exactly one of `a < b`, `a == b`, `b < a` holds for two strings. */
  lemma {:induction false} StrTrichotomy(a: string, b: string)
    ensures !StrLess(a, a)
    ensures !(StrLess(a, b) && StrLess(b, a))
    ensures a != b ==> StrLess(a, b) || StrLess(b, a)
  {
    if |a| > 0 && |b| > 0 {
      StrTrichotomy(a[1..], b[1..]);
      if a[0] == b[0] && a != b {
        assert a == [a[0]] + a[1..] && b == [b[0]] + b[1..];
      }
    } else if |a| > 0 {
      StrTrichotomy(a[1..], a[1..]);
    }
  }

  lemma {:induction false} StrLessTransitive(a: string, b: string, c: string)
    requires StrLess(a, b) && StrLess(b, c)
    ensures StrLess(a, c)
  {
    if |a| > 0 && a[0] == b[0] && b[0] == c[0] {
      StrLessTransitive(a[1..], b[1..], c[1..]);
    }
  }

  /** JavaScript `<` on two primitives of the same variant; `false < true`. */
  predicate NativeLess(a: Value, b: Value)
    requires !a.Vec? && SameVariant(a, b)
  {
    match a
    case Num(n) => n < b.n
    case Str(s) => StrLess(s, b.s)
    case Bool(x) => !x && b.b
  }

  /** `candidate.compareTo(reference)` with a Vector3 candidate. A reference
      that is not a Vector3 has no x, y or z: every comparison in compareTo
      reads `undefined`, is false, and the method falls through to 0. */
  function CompareWith(a: Vector3, reference: Value): (r: int)
    ensures reference.Vec? ==> (r == 0 <==> a == reference.v)
    ensures !reference.Vec? ==> r == 0
  {
    if reference.Vec? then CompareTo(a, reference.v) else 0
  }

  // ---------------------------------------------------------------------------
  // Predicate combinators

  /** A one-argument test built by `eq`, `lt`, `gt` or `not`. */
  datatype Pred = Eq(reference: Value) | Lt(reference: Value) | Gt(reference: Value) | Not(inner: Pred)

  /** `lte(v)`: defined as `not(gt(v))`, not as a comparison of its own. */
  function Lte(v: Value): Pred
  {
    Not(Gt(v))
  }

  /** `gte(v)`: defined as `not(lt(v))`. */
  function Gte(v: Value): Pred
  {
    Not(Lt(v))
  }

  /** The test has a value that depends on no JavaScript type coercion: a
      primitive candidate is only ordered against a reference of its own
      variant. Equality (`===`) needs no coercion, and a Vector3 candidate
      against a non-vector compares its coordinates with `undefined`, which
      is always false. */
  predicate Defined(p: Pred, o: Value)
  {
    match p
    case Eq(_) => true
    case Lt(v) => o.Vec? || SameVariant(o, v)
    case Gt(v) => o.Vec? || SameVariant(o, v)
    case Not(q) => Defined(q, o)
  }

  /** Applying a predicate to a candidate: a comparable (Vector3) candidate is
      compared through its own compareTo, a primitive with `===`, `<` and `>`. */
  predicate Eval(p: Pred, o: Value)
    requires Defined(p, o)
  {
    match p
    case Eq(v) => if o.Vec? then CompareWith(o.v, v) == 0 else o == v
    case Lt(v) => if o.Vec? then CompareWith(o.v, v) == -1 else NativeLess(o, v)
    case Gt(v) => if o.Vec? then CompareWith(o.v, v) == 1 else NativeLess(v, o)
    case Not(q) => !Eval(q, o)
  }

  /** `not(p)` answers the opposite of `p`. */
  lemma NotNegates(p: Pred, o: Value)
    requires Defined(p, o)
    ensures Defined(Not(p), o)
    ensures Eval(Not(p), o) == !Eval(p, o)
  {
  }

  /** `eq(v)` is equality, except that a Vector3 candidate equals every
      non-vector reference (its compareTo returns 0 on `undefined` fields). */
  lemma EqMeansEqual(v: Value, o: Value)
    ensures !(o.Vec? && !v.Vec?) ==> (Eval(Eq(v), o) <==> o == v)
    ensures o.Vec? && !v.Vec? ==> Eval(Eq(v), o)
  {
  }

  /** For values of one variant, `eq(a)(b) == eq(b)(a)`. */
  lemma EqSymmetric(a: Value, b: Value)
    requires SameVariant(a, b)
    ensures Eval(Eq(a), b) == Eval(Eq(b), a)
  {
  }

  /** For values of one variant, `lt(a)(b) == gt(b)(a)`. */
  lemma LtGtDual(a: Value, b: Value)
    requires SameVariant(a, b)
    ensures Eval(Lt(a), b) == Eval(Gt(b), a)
  {
  }

  /** For values of one variant, exactly one of `lt`, `eq`, `gt` holds. */
  lemma Trichotomy(v: Value, o: Value)
    requires SameVariant(v, o)
    ensures Eval(Lt(v), o) || Eval(Eq(v), o) || Eval(Gt(v), o)
    ensures !(Eval(Lt(v), o) && Eval(Eq(v), o))
    ensures !(Eval(Lt(v), o) && Eval(Gt(v), o))
    ensures !(Eval(Eq(v), o) && Eval(Gt(v), o))
  {
    if o.Str? {
      StrTrichotomy(o.s, v.s);
    }
  }

  /** `lt` orders the values of one variant transitively. */
  lemma LtTransitive(a: Value, b: Value, c: Value)
    requires SameVariant(a, b) && SameVariant(b, c)
    requires Eval(Lt(b), a) && Eval(Lt(c), b)
    ensures Eval(Lt(c), a)
  {
    if a.Str? {
      StrLessTransitive(a.s, b.s, c.s);
    }
  }

  /** `lte(v)(o)` is `!gt(v)(o)`; on one variant it is "less than or equal". */
  lemma LteMeansAtMost(v: Value, o: Value)
    requires Defined(Gt(v), o)
    ensures Eval(Lte(v), o) == !Eval(Gt(v), o)
    ensures SameVariant(v, o) ==> (Eval(Lte(v), o) <==> Eval(Lt(v), o) || Eval(Eq(v), o))
  {
    if SameVariant(v, o) {
      Trichotomy(v, o);
    }
  }

  /** `gte(v)(o)` is `!lt(v)(o)`; on one variant it is "greater than or equal". */
  lemma GteMeansAtLeast(v: Value, o: Value)
    requires Defined(Lt(v), o)
    ensures Eval(Gte(v), o) == !Eval(Lt(v), o)
    ensures SameVariant(v, o) ==> (Eval(Gte(v), o) <==> Eval(Gt(v), o) || Eval(Eq(v), o))
  {
    if SameVariant(v, o) {
      Trichotomy(v, o);
    }
  }

  /** Rows of the combinator tests (the candidate is the second argument). */
  lemma CombinatorTable()
    ensures Eval(Eq(Num(7)), Num(7)) && !Eval(Eq(Num(8)), Num(7))
    ensures !Eval(Eq(Str("BOB")), Str("bob"))
    ensures Eval(Lt(Num(8)), Num(7)) && !Eval(Lt(Num(7)), Num(7))
    ensures Eval(Lt(Bool(true)), Bool(false)) && !Eval(Lt(Bool(false)), Bool(true))
    ensures Eval(Lt(Str("dad")), Str("adam")) && !Eval(Lt(Str("BOB")), Str("bob"))
    ensures Eval(Lt(Vec(Vector3(0, 2, 0))), Vec(Vector3(0, 0, 0)))
    ensures Eval(Gt(Vec(Vector3(0, 0, 0))), Vec(Vector3(0, 2, 0)))
    ensures !Eval(Eq(Vec(Vector3(0, 0, 0))), Vec(Vector3(1, 0, 0)))
  {
  }

  // ---------------------------------------------------------------------------
  // Entities, attribute bags and the index

  /** A frozen copy of an entity: its id and its attributes at that instant. */
  datatype Entity = Entity(id: string, attrs: map<string, Value>)

  /** The outcome of `assign`: the merged copy, or the not-found failure. */
  datatype AssignResult = Assigned(entity: Entity) | NotFound(id: string)

  /** An object literal's keys are distinct; `for ... in` visits them in order. */
  predicate DistinctKeys<X>(s: seq<(string, X)>)
  {
    forall i, j :: 0 <= i < j < |s| ==> s[i].0 != s[j].0
  }

  /** The bag does not try to overwrite the entity's `id`. */
  predicate NoIdKey<X>(s: seq<(string, X)>)
  {
    forall i :: 0 <= i < |s| ==> s[i].0 != "id"
  }

  function KeysOf<X>(s: seq<(string, X)>): set<string>
  {
    set i | 0 <= i < |s| :: s[i].0
  }

  /** An entity's attributes after writing each pair of `extra` in turn
      (`entity[prop] = extraValues[prop]`). */
  function Overlay(attrs: map<string, Value>, extra: seq<(string, Value)>): map<string, Value>
  {
    if extra == [] then attrs
    else Overlay(attrs, extra[..|extra| - 1])[extra[|extra| - 1].0 := extra[|extra| - 1].1]
  }

  lemma KeysOfFront<X>(extra: seq<(string, X)>)
    requires extra != []
    ensures KeysOf(extra) == KeysOf(extra[..|extra| - 1]) + {extra[|extra| - 1].0}
  {
    var front := extra[..|extra| - 1];
    assert forall i :: 0 <= i < |front| ==> front[i] == extra[i];
  }

  /** After the writes each written name holds its new value, whether it was
      inserted or overwritten, and every other attribute is as it was. */
  lemma {:induction false} OverlayMeaning(attrs: map<string, Value>, extra: seq<(string, Value)>)
    requires DistinctKeys(extra)
    ensures Overlay(attrs, extra).Keys == attrs.Keys + KeysOf(extra)
    ensures forall i :: 0 <= i < |extra| ==> Overlay(attrs, extra)[extra[i].0] == extra[i].1
    ensures forall k :: k in attrs && k !in KeysOf(extra) ==> Overlay(attrs, extra)[k] == attrs[k]
  {
    if extra != [] {
      var front := extra[..|extra| - 1];
      assert forall i :: 0 <= i < |front| ==> front[i] == extra[i];
      OverlayMeaning(attrs, front);
      KeysOfFront(extra);
    }
  }

  /** Writing the same bag twice changes nothing the first write did not. */
  lemma OverlayIdempotent(attrs: map<string, Value>, extra: seq<(string, Value)>)
    requires DistinctKeys(extra)
    ensures Overlay(Overlay(attrs, extra), extra) == Overlay(attrs, extra)
  {
    var once := Overlay(attrs, extra);
    OverlayMeaning(attrs, extra);
    OverlayMeaning(once, extra);
    var twice := Overlay(once, extra);
    forall k | k in twice
      ensures twice[k] == once[k]
    {
      if k in KeysOf(extra) {
        var i :| 0 <= i < |extra| && extra[i].0 == k;
      }
    }
  }

  /** One index list after `some(e => e.id === entity.id)` and a conditional `push`. */
  function Listed(list: seq<string>, id: string): seq<string>
  {
    if id in list then list else list + [id]
  }

  /** The entity ends up in the list exactly once, after the entries already there. */
  lemma ListedOnce(list: seq<string>, id: string)
    requires Distinct(list)
    ensures Distinct(Listed(list, id))
    ensures id in Listed(list, id)
    ensures Listed(list, id)[..|list|] == list
    ensures forall x :: x in Listed(list, id) <==> x in list || x == id
  {
  }

  /** The index after `addProperties(entity, extra)`: for each name in turn a
      list is created if missing and the entity is appended unless present. */
  function Enlisted(index: map<string, seq<string>>, id: string, extra: seq<(string, Value)>): map<string, seq<string>>
  {
    if extra == [] then index
    else
      var prev := Enlisted(index, id, extra[..|extra| - 1]);
      var a := extra[|extra| - 1].0;
      prev[a := Listed(Lookup(prev, a), id)]
  }

  /** Every assigned name gets a list holding the entity (created if it was
      missing, appended to if the entity was absent); other lists are untouched. */
  lemma {:induction false} EnlistedMeaning(index: map<string, seq<string>>, id: string, extra: seq<(string, Value)>)
    ensures Enlisted(index, id, extra).Keys == index.Keys + KeysOf(extra)
    ensures forall a :: a in KeysOf(extra) ==> Enlisted(index, id, extra)[a] == Listed(Lookup(index, a), id)
    ensures forall a :: a in index && a !in KeysOf(extra) ==> Enlisted(index, id, extra)[a] == index[a]
  {
    if extra != [] {
      EnlistedMeaning(index, id, extra[..|extra| - 1]);
      KeysOfFront(extra);
    }
  }

  /** Assigning the same names again leaves the index as it was. */
  lemma EnlistedIdempotent(index: map<string, seq<string>>, id: string, extra: seq<(string, Value)>)
    ensures Enlisted(Enlisted(index, id, extra), id, extra) == Enlisted(index, id, extra)
  {
    var once := Enlisted(index, id, extra);
    var twice := Enlisted(once, id, extra);
    EnlistedMeaning(index, id, extra);
    EnlistedMeaning(once, id, extra);
    forall a | a in twice.Keys
      ensures twice[a] == once[a]
    {
      if a in KeysOf(extra) {
        assert Lookup(once, a) == Listed(Lookup(index, a), id);
      }
    }
  }

  /** The index and the attribute table agree: each list is duplicate-free and
      names exactly the entities currently carrying that attribute. */
  ghost predicate Consistent(table: map<string, map<string, Value>>, index: map<string, seq<string>>)
  {
    && (forall a :: a in index ==> Distinct(index[a]))
    && (forall a, id :: a in index && id in index[a] ==> id in table && a in table[id])
    && (forall id, a :: id in table && a in table[id] ==> a in index && id in index[a])
  }

  /** `addProperties` keeps the index and the table in agreement. */
  lemma AddKeepsConsistent(table: map<string, map<string, Value>>, index: map<string, seq<string>>, id: string, extra: seq<(string, Value)>)
    requires Consistent(table, index)
    requires id in table
    requires DistinctKeys(extra)
    ensures Consistent(table[id := Overlay(table[id], extra)], Enlisted(index, id, extra))
  {
    var table' := table[id := Overlay(table[id], extra)];
    var index' := Enlisted(index, id, extra);
    var names := KeysOf(extra);
    assert table'[id].Keys == table[id].Keys + names by {
      OverlayMeaning(table[id], extra);
    }
    assert table'.Keys == table.Keys;
    EnlistedMeaning(index, id, extra);
    forall a | a in index'
      ensures Distinct(index'[a])
    {
      if a in names {
        ListedOnce(Lookup(index, a), id);
      }
    }
    forall a, e | a in index' && e in index'[a]
      ensures e in table' && a in table'[e]
    {
      if a in names {
        ListedOnce(Lookup(index, a), id);
        if e != id {
          assert e in Lookup(index, a);
        }
      } else {
        assert e in index[a];
      }
    }
    forall e, a | e in table' && a in table'[e]
      ensures a in index' && e in index'[a]
    {
      if a in names {
        ListedOnce(Lookup(index, a), id);
      } else if e == id {
        assert a in table[id];
      } else {
        assert a in table[e];
      }
    }
  }

  /** A new entity with no attributes leaves the index and the table in agreement. */
  lemma AddEmptyKeepsConsistent(table: map<string, map<string, Value>>, index: map<string, seq<string>>, id: string)
    requires Consistent(table, index)
    requires id !in table
    ensures Consistent(table[id := map[]], index)
  {
  }

  /** One more pair of the bag, as the loop of `addProperties` writes it. */
  lemma OverlayStep(attrs: map<string, Value>, extra: seq<(string, Value)>, i: nat)
    requires i < |extra|
    ensures Overlay(attrs, extra[..i + 1]) == Overlay(attrs, extra[..i])[extra[i].0 := extra[i].1]
  {
    assert extra[..i + 1][..i] == extra[..i];
  }

  lemma EnlistedStep(index: map<string, seq<string>>, id: string, extra: seq<(string, Value)>, i: nat)
    requires i < |extra|
    ensures Enlisted(index, id, extra[..i + 1]) ==
      Enlisted(index, id, extra[..i])[extra[i].0 := Listed(Lookup(Enlisted(index, id, extra[..i]), extra[i].0), id)]
  {
    assert extra[..i + 1][..i] == extra[..i];
  }

  // ---------------------------------------------------------------------------
  // Queries

  /** Every listed entity carries `a` with a value on which `p` is defined. */
  predicate Ready(table: map<string, map<string, Value>>, list: seq<string>, a: string, p: Pred)
  {
    forall id :: id in list ==> id in table && a in table[id] && Defined(p, table[id][a])
  }

  /** `(propertiesToEntities.get(a) || []).filter(e => p(e[a]))`, on ids. */
  function Matching(table: map<string, map<string, Value>>, list: seq<string>, a: string, p: Pred): (r: seq<string>)
    requires Ready(table, list, a, p)
    ensures forall id :: id in r <==> id in list && Eval(p, table[id][a])
    ensures |r| <= |list|
  {
    if list == [] then []
    else (if Eval(p, table[list[0]][a]) then [list[0]] else []) + Matching(table, list[1..], a, p)
  }

  /** The attribute carries a value that passes the predicate. */
  predicate Satisfies(attrs: map<string, Value>, a: string, p: Pred)
  {
    a in attrs && Defined(p, attrs[a]) && Eval(p, attrs[a])
  }

  /** Every predicate of the query is defined on every value it can meet. */
  predicate QueryDefined(table: map<string, map<string, Value>>, query: seq<(string, Pred)>)
  {
    forall i, id :: 0 <= i < |query| && id in table && query[i].0 in table[id] ==> Defined(query[i].1, table[id][query[i].0])
  }

  /** An attribute clause matches exactly the entities that carry the attribute
      with a passing value: an entity without it never matches, whatever the
      predicate, `not(eq(x))` included. */
  lemma MatchingScope(table: map<string, map<string, Value>>, index: map<string, seq<string>>, a: string, p: Pred)
    requires Consistent(table, index)
    requires forall id :: id in table && a in table[id] ==> Defined(p, table[id][a])
    ensures forall id :: id in Matching(table, Lookup(index, a), a, p) <==> id in table && Satisfies(table[id], a, p)
  {
  }

  /** One candidate list per query clause, in query order. */
  function CandidateLists(table: map<string, map<string, Value>>, index: map<string, seq<string>>, query: seq<(string, Pred)>): (r: seq<seq<string>>)
    requires Consistent(table, index)
    requires QueryDefined(table, query)
    ensures |r| == |query|
    ensures forall i :: 0 <= i < |query| ==> forall id :: id in r[i] <==> id in table && Satisfies(table[id], query[i].0, query[i].1)
  {
    seq(|query|, i requires 0 <= i < |query| => Matching(table, Lookup(index, query[i].0), query[i].0, query[i].1))
  }

  /** The i-th clause's candidate list, as the loop body computes it. */
  lemma CandidateAt(table: map<string, map<string, Value>>, index: map<string, seq<string>>, query: seq<(string, Pred)>, i: nat)
    requires Consistent(table, index)
    requires QueryDefined(table, query)
    requires i < |query|
    ensures Ready(table, Lookup(index, query[i].0), query[i].0, query[i].1)
    ensures CandidateLists(table, index, query)[i] == Matching(table, Lookup(index, query[i].0), query[i].0, query[i].1)
  {
  }

  /** The ids `find` answers with: every entity in creation order for an empty
      query, otherwise the fold of the candidate lists. */
  function FindIds(table: map<string, map<string, Value>>, index: map<string, seq<string>>, order: seq<string>, query: seq<(string, Pred)>): seq<string>
    requires Consistent(table, index)
    requires QueryDefined(table, query)
  {
    if |query| == 0 then order else Sweep(CandidateLists(table, index, query))
  }

  /** Filtering a duplicate-free index list leaves it duplicate-free. */
  lemma {:induction false} MatchingDistinct(table: map<string, map<string, Value>>, list: seq<string>, a: string, p: Pred)
    requires Ready(table, list, a, p)
    requires Distinct(list)
    ensures Distinct(Matching(table, list, a, p))
  {
    if list != [] {
      var tail := list[1..];
      assert Distinct(tail) by {
        forall i, j | 0 <= i < j < |tail|
          ensures tail[i] != tail[j]
        {
          assert tail[i] == list[i + 1] && tail[j] == list[j + 1];
        }
      }
      assert Ready(table, tail, a, p) by {
        forall id | id in tail
          ensures id in list
        {
          var k :| 0 <= k < |tail| && tail[k] == id;
          assert list[k + 1] == id;
        }
      }
      MatchingDistinct(table, tail, a, p);
      assert list[0] !in tail by {
        forall k | 0 <= k < |tail|
          ensures tail[k] != list[0]
        {
          assert tail[k] == list[k + 1];
        }
      }
      var head: seq<string> := if Eval(p, table[list[0]][a]) then [list[0]] else [];
      var rest := Matching(table, tail, a, p);
      var r := head + rest;
      forall i, j | 0 <= i < j < |r|
        ensures r[i] != r[j]
      {
        if i >= |head| {
          assert r[i] == rest[i - |head|] && r[j] == rest[j - |head|];
        } else {
          assert r[i] == list[0] && r[j] == rest[j - 1];
          assert r[j] in rest;
        }
      }
    }
  }

  /** `find` reports each entity at most once: the index lists hold no
      duplicates (`addProperties` pushes an entity only when absent), and
      neither filtering nor the fold introduces any. */
  lemma FindIdsDistinct(counter: nat, order: seq<string>, table: map<string, map<string, Value>>,
                        index: map<string, seq<string>>, query: seq<(string, Pred)>)
    requires WorldInvariant(counter, order, table, index)
    requires QueryDefined(table, query)
    ensures Distinct(FindIds(table, index, order, query))
  {
    if |query| == 0 {
      IssuedIdsDistinct(order);
    } else {
      var lists := CandidateLists(table, index, query);
      forall j | 0 <= j < |lists|
        ensures Distinct(lists[j])
      {
        CandidateAt(table, index, query, j);
        MatchingDistinct(table, Lookup(index, query[j].0), query[j].0, query[j].1);
      }
      SweepDistinct(lists);
    }
  }

  /** What `find` means. Every answer carries the last queried attribute with a
      passing value. While the running result never empties, the answer is the
      first clause's matches that also meet every later clause, in the first
      clause's order: exactly the entities meeting all clauses. */
  lemma FindMatchesAll(table: map<string, map<string, Value>>, index: map<string, seq<string>>, order: seq<string>, query: seq<(string, Pred)>)
    requires Consistent(table, index)
    requires QueryDefined(table, query)
    requires |query| > 0
    ensures forall id :: id in FindIds(table, index, order, query) ==> id in table && Satisfies(table[id], query[|query| - 1].0, query[|query| - 1].1)
    ensures NeverEmpty(CandidateLists(table, index, query)) ==>
      && FindIds(table, index, order, query) == KeepInAll(CandidateLists(table, index, query)[0], CandidateLists(table, index, query)[1..])
      && forall id :: id in FindIds(table, index, order, query) <==> id in table && forall i :: 0 <= i < |query| ==> Satisfies(table[id], query[i].0, query[i].1)
  {
    var lists := CandidateLists(table, index, query);
    if NeverEmpty(lists) {
      SweepIsIntersection(lists);
      SweepMembership(lists);
    }
  }

  /** The copies `find` hands back: each id with its current attributes. */
  function Snapshots(table: map<string, map<string, Value>>, ids: seq<string>): (r: seq<Entity>)
    requires forall id :: id in ids ==> id in table
    ensures |r| == |ids|
    ensures forall k :: 0 <= k < |ids| ==> r[k] == Entity(ids[k], table[ids[k]])
  {
    seq(|ids|, k requires 0 <= k < |ids| => Entity(ids[k], table[ids[k]]))
  }

  // ---------------------------------------------------------------------------
  // The World's invariant

  /** The k-th id handed out was made from counter value k, `table` holds
      exactly the issued ids, and the index agrees with the table. */
  ghost predicate WorldInvariant(counter: nat, order: seq<string>, table: map<string, map<string, Value>>,
                                 index: map<string, seq<string>>)
  {
    && |order| == counter
    && (forall i :: 0 <= i < |order| ==> IsIdFor(order[i], i))
    && (forall id :: id in table <==> id in order)
    && Consistent(table, index)
  }

  /** Issuing the next id, under either prefix, to an empty record keeps the
      invariant, and so does writing the initial bag to it. */
  lemma CreateKeepsInvariant(counter: nat, order: seq<string>, table: map<string, map<string, Value>>,
                             index: map<string, seq<string>>, p: Prefix, extra: seq<(string, Value)>)
    requires WorldInvariant(counter, order, table, index)
    requires DistinctKeys(extra)
    ensures IdOf(p, counter) !in table
    ensures WorldInvariant(counter + 1, order + [IdOf(p, counter)],
                           table[IdOf(p, counter) := Overlay(map[], extra)], Enlisted(index, IdOf(p, counter), extra))
  {
    var id := IdOf(p, counter);
    NextIdFresh(order, p, counter);
    AddEmptyKeepsConsistent(table, index, id);
    var order' := order + [id];
    forall i | 0 <= i < |order'|
      ensures IsIdFor(order'[i], i)
    {
      if i < |order| {
        assert order'[i] == order[i];
      }
    }
    var table' := table[id := map[]];
    AddKeepsInvariant(counter + 1, order', table', index, id, extra);
    assert table'[id := Overlay(table'[id], extra)] == table[id := Overlay(map[], extra)];
  }

  /** Writing a bag to an existing entity keeps the invariant. */
  lemma AddKeepsInvariant(counter: nat, order: seq<string>, table: map<string, map<string, Value>>,
                          index: map<string, seq<string>>, id: string, extra: seq<(string, Value)>)
    requires WorldInvariant(counter, order, table, index)
    requires id in table
    requires DistinctKeys(extra)
    ensures WorldInvariant(counter, order, table[id := Overlay(table[id], extra)], Enlisted(index, id, extra))
  {
    AddKeepsConsistent(table, index, id, extra);
  }

  // ---------------------------------------------------------------------------
  // The World

  class World {
    /** The id counter, shared by both prefixes. */
    var counter: nat
    /** The ids in creation order; with `table`, the insertion-ordered `idToEntity`. */
    var order: seq<string>
    /** Each entity's canonical attributes, by id. */
    var table: map<string, map<string, Value>>
    /** `propertiesToEntities`: attribute name to the ids carrying it, in the order they got it. */
    var index: map<string, seq<string>>

    ghost predicate Valid()
      reads this
    {
      WorldInvariant(counter, order, table, index)
    }

    constructor ()
      ensures Valid()
      ensures counter == 0 && order == [] && table == map[] && index == map[]
    {
      counter := 0;
      order := [];
      table := map[];
      index := map[];
    }

    /** `createEntity(prefix, extraValues)`: a fresh id from the shared counter,
        an empty record, then the initial attributes as `assign` writes them. */
    method CreateEntity(prefix: Prefix, extra: seq<(string, Value)>) returns (e: Entity)
      requires Valid()
      requires DistinctKeys(extra) && NoIdKey(extra)
      modifies this
      ensures Valid()
      ensures e.id == IdOf(prefix, old(counter)) && e.id !in old(table)
      ensures counter == old(counter) + 1
      ensures order == old(order) + [e.id]
      ensures e.attrs == Overlay(map[], extra)
      ensures table == old(table)[e.id := e.attrs]
      ensures index == Enlisted(old(index), e.id, extra)
    {
      var id := IdOf(prefix, counter);
      counter := counter + 1;
      order := order + [id];
      table := table[id := map[]];
      AddProperties(id, extra);
      assert table == old(table)[id := Overlay(map[], extra)];
      CreateKeepsInvariant(old(counter), old(order), old(table), old(index), prefix, extra);
      e := Entity(id, table[id]);
    }

    /** `assign(entity, extraValues)`: fails, changing nothing, when the id is
        unknown; otherwise writes the attributes and returns the canonical
        record merged with them. */
    method Assign(entity: Entity, extra: seq<(string, Value)>) returns (r: AssignResult)
      requires Valid()
      requires DistinctKeys(extra) && NoIdKey(extra)
      modifies this
      ensures Valid()
      ensures counter == old(counter) && order == old(order)
      ensures entity.id !in old(table) ==>
        r == NotFound(entity.id) && table == old(table) && index == old(index)
      ensures entity.id in old(table) ==>
        && table == old(table)[entity.id := Overlay(old(table)[entity.id], extra)]
        && index == Enlisted(old(index), entity.id, extra)
        && r == Assigned(Entity(entity.id, table[entity.id]))
    {
      if entity.id !in table {
        return NotFound(entity.id);
      }
      AddKeepsInvariant(counter, order, table, index, entity.id, extra);
      AddProperties(entity.id, extra);
      OverlayIdempotent(old(table)[entity.id], extra);
      r := Assigned(Entity(entity.id, Overlay(table[entity.id], extra)));
    }

    /** `addProperties(entity, extraValues)`: writes each attribute and makes
        sure the entity is listed, once, under its name. */
    method AddProperties(id: string, extra: seq<(string, Value)>)
      requires id in table
      modifies this
      ensures counter == old(counter) && order == old(order)
      ensures table == old(table)[id := Overlay(old(table)[id], extra)]
      ensures index == Enlisted(old(index), id, extra)
    {
      ghost var attrs0, index0 := table[id], index;
      for i := 0 to |extra|
        invariant counter == old(counter) && order == old(order)
        invariant table == old(table)[id := Overlay(attrs0, extra[..i])]
        invariant index == Enlisted(index0, id, extra[..i])
      {
        OverlayStep(attrs0, extra, i);
        EnlistedStep(index0, id, extra, i);
        AddProperty(id, extra[i].0, extra[i].1);
      }
      assert extra[..|extra|] == extra;
    }

    /** One pass of the loop of `addProperties`: write the value, create the
        list if the name is new, append the entity unless it is listed. */
    method AddProperty(id: string, prop: string, value: Value)
      requires id in table
      modifies this
      ensures counter == old(counter) && order == old(order)
      ensures table == old(table)[id := old(table)[id][prop := value]]
      ensures index == old(index)[prop := Listed(Lookup(old(index), prop), id)]
    {
      table := table[id := table[id][prop := value]];
      if prop !in index {
        index := index[prop := []];
      }
      // The lookup that the source guards with a throw: the list exists here.
      var entitiesForProp := index[prop];
      if id !in entitiesForProp {
        index := index[prop := entitiesForProp + [id]];
      }
    }

    /** `find(query)`. */
    method Find(query: seq<(string, Pred)>) returns (rs: seq<Entity>)
      requires Valid()
      requires QueryDefined(table, query)
      ensures forall id :: id in FindIds(table, index, order, query) ==> id in table
      ensures rs == Snapshots(table, FindIds(table, index, order, query))
      ensures |query| == 0 ==> |rs| == |order| && forall k :: 0 <= k < |rs| ==> rs[k] == Entity(order[k], table[order[k]])
      ensures forall i, j :: 0 <= i < j < |rs| ==> rs[i].id != rs[j].id
    {
      FindIdsDistinct(counter, order, table, index, query);
      if |query| == 0 {
        return Snapshots(table, order);
      }
      ghost var lists := CandidateLists(table, index, query);
      var results: seq<string> := [];
      for i := 0 to |query|
        invariant results == Sweep(lists[..i])
      {
        var prop, test := query[i].0, query[i].1;
        CandidateAt(table, index, query, i);
        var newAdditions := Matching(table, Lookup(index, prop), prop, test);
        SweepStep(lists, i);
        if |results| == 0 {
          results := newAdditions;
        } else {
          results := Keep(results, newAdditions);
        }
      }
      assert lists[..|query|] == lists;
      FindMatchesAll(table, index, order, query);
      rs := Snapshots(table, results);
    }
  }
}
