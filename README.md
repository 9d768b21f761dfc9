# Entity-component store, modelled in Dafny

This project models the entity-component store of a small TypeScript game engine. It covers two files.

`src/core/ecs.ts` is the store the engine uses:
- a comparable 3-component position, `Vector3`;
- the predicate combinators `eq`, `lt`, `gt`, `lte`, `gte` and `not`;
- a `World`. It hands out ids from a counter shared by the `srv` and `cln` prefixes. It keeps each entity's attributes and an index from attribute name to the entities carrying it. It answers queries of the form "attribute name → predicate".

`src/ecs.ts` is the older prototype:
- a 2-component `Vector2`;
- an `eq` combinator;
- a `World` whose entities are proxies. Each attribute write or delete runs a trap that maintains the index.

The project has four modules:
- `Ids` (`ids.dfy`) builds ids, `prefix + String(counter)`. It proves that ids issued from the shared counter never repeat. Both Worlds use it.
- `QueryFold` (`query_fold.dfy`) models the loop that both `find` methods share. The loop filters each queried attribute's index list by its predicate, then folds the lists into a running result. A non-empty running result is narrowed by the next list. An empty one is replaced by it.
- `CoreEcs` (`core_ecs.dfy`) models `src/core/ecs.ts`.
- `ProtoEcs` (`proto_ecs.dfy`) models `src/ecs.ts`.

Each `World` is a class:
- `counter` is the id counter.
- `order` (core) or `entities` (prototype) lists the ids in creation order.
- `table` maps each id to the entity's attributes.
- `index` maps an attribute name to the list of ids it lists.

Ids stand in for entity objects. Since ids are proved unique, comparing ids is the same as the comparisons of entity objects the source makes inside its index and its queries: `some(e => e.id === entity.id)`, `indexOf` and `includes`. The prototype hands out two objects per entity, which ids do not tell apart (see "Left out"). An attribute bag or query is a sequence of (name, value) pairs in the order `for ... in` visits the object's keys.

The source is kept where it differs from the obvious intent:
- **`find` is not always an intersection.** Both `find` loops replace an empty running result by the next candidate list (src/core/ecs.ts:213-214, src/ecs.ts:122-123). The narrowing step `results.filter(value => newAdditions.includes(value))` (src/core/ecs.ts:216) and the two-clause test at test/core/unit/ecs.spec.ts:245-259, which expects no answer when one clause fails, show that an intersection is intended. The code does not always compute one, and the model follows the code.
  - `QueryFold.SweepIsIntersection` proves that the answer is the intersection while the running result never empties.
  - `QueryFold.SweepIsNotIntersection` shows a query where it is not.
- **The prototype's `set` trap appends unconditionally.** An entity written twice under one name is listed twice, and one query clause then reports it twice.
- **The prototype's index can go stale.** Write an attribute twice, then delete it once: the delete trap takes one of the two entries, so the entity stays listed without the attribute. A later `find` on that name calls the predicate on `undefined` (src/ecs.ts:119), and `eq` throws a TypeError when `isComparable` reads `undefined.compareTo` (src/ecs.ts:37, :48). `ProtoEcs.World.Find` models this as the outcome `Threw`, and `ProtoEcs.StaleEntryThrows` drives a World into that state through its own methods.
- **The prototype's delete trap can remove the wrong entry.** When the entity is not in the list, `indexOf` gives -1 and `splice(-1, 1)` removes the list's last entry (src/ecs.ts:90).

JavaScript behaviour on values of different kinds is modelled where its result does not depend on converting one operand to the other's kind:
- `===` between kinds is false.
- A `Vector3` compared with a non-vector reads `undefined` coordinates. Each comparison is then against `undefined`, which is always false, and `compareTo` returns 0. So `eq` holds for a `Vector3` candidate against any non-vector reference.
- A `Vector2` in the same position returns -1.

## Model

| member | source | states |
|---|---|---|
| Ids.Decimal | src/core/ecs.ts:140 | `String(n)` for a counter value is a non-empty run of decimal digits with no leading zero; it is one digit exactly when n < 10 |
| Ids.DecimalInjective | src/core/ecs.ts:140 | different counter values never print the same |
| Ids.Prefix.Text | src/core/ecs.ts:137 | the two prefixes a caller may pass, `"srv"` and `"cln"`, each three characters long |
| Ids.IdOf | src/core/ecs.ts:140-142 | the id `prefix + String(counter)` (the same at src/ecs.ts:61-63); both `createEntity` contracts are stated through it |
| Ids.IdOfInjective | src/core/ecs.ts:140-143 | an id `prefix + String(n)` determines both its prefix and n |
| Ids.NextIdFresh | src/core/ecs.ts:140-143 | when the k-th issued id came from counter value k, the id made from a later counter value is new, whichever prefix is asked for |
| Ids.IssuedIdsDistinct | src/core/ecs.ts:140-145 | ids issued from the shared counter are pairwise distinct across both prefixes |
| Ids.IdTable | test/core/unit/ecs.spec.ts:33-42 | the test's ids: srv0, srv1, cln2, cln7, and the two-digit cln12 |
| QueryFold.Keep | src/core/ecs.ts:216 | `results.filter(v => newAdditions.includes(v))` keeps exactly the entries found in both lists and is never longer than `results` |
| QueryFold.Lookup | src/core/ecs.ts:208 | the index list under a name, where a missing list reads as empty (also src/ecs.ts:119) |
| QueryFold.Step | src/core/ecs.ts:213-217 | one pass of the loop: an empty running result is replaced by the next candidate list, a non-empty one is narrowed by it with `Keep` |
| QueryFold.Sweep | src/core/ecs.ts:206-218 | every entry of the loop's running result is in the last candidate list consumed |
| QueryFold.KeepInAll | src/core/ecs.ts:206-218 | the intended intersection: an entry is kept exactly when it is in the first list and in every later one |
| QueryFold.KeepInAllOfNone | src/core/ecs.ts:206-218 | with no later lists the intersection is the first list unchanged |
| QueryFold.KeepNarrows | src/core/ecs.ts:216 | narrowing an intersection by one more list gives the intersection with that list added |
| QueryFold.SweepIsIntersection | src/core/ecs.ts:206-220 | while the running result never empties after the first list, the loop computes the first list restricted to entries in every later list, in first-list order |
| QueryFold.SweepMembership | src/core/ecs.ts:206-220 | under the same condition an entry is in the answer exactly when it is in every candidate list |
| QueryFold.KeepDistinct | src/core/ecs.ts:216 | narrowing a duplicate-free running result leaves it duplicate-free |
| QueryFold.SweepDistinct | src/core/ecs.ts:206-218 | when every candidate list is duplicate-free, so is the loop's answer, reset included |
| QueryFold.SweepRestarts | src/core/ecs.ts:213-214 | once the running result is empty, the next candidate list replaces it outright |
| QueryFold.SweepIsNotIntersection | src/core/ecs.ts:213-214 | with an empty first list and a second list holding cln1, the loop answers cln1 where the intersection is empty |
| CoreEcs.CompareTo | src/core/ecs.ts:42-68 | `Vector3.compareTo` answers -1, 0 or 1: 0 exactly for equal vectors, -1 exactly when the first is smaller by y, then x, then z, 1 exactly when it is larger |
| CoreEcs.CompareToAntisymmetric | src/core/ecs.ts:42-68 | swapping the arguments negates the answer |
| CoreEcs.KeyOrderIsStrictTotal | src/core/ecs.ts:42-68 | the y-x-z key order is irreflexive, total and transitive |
| CoreEcs.CompareToTable | test/core/unit/ecs.spec.ts:7-24 | the test's comparison rows, plus a pair ordered differently from (x, y, z) lexicographic order |
| CoreEcs.StrLess | src/core/ecs.ts:110 | native `<` on two strings, character by character with a proper prefix first (ordered by code point; see "Left out") |
| CoreEcs.NativeLess | src/core/ecs.ts:110 | native `<` on two primitives of one kind: integers by value, strings by `StrLess`, `false < true` |
| CoreEcs.StrTrichotomy | src/core/ecs.ts:108-124 | native `<` on strings is irreflexive and asymmetric, and relates any two different strings one way or the other |
| CoreEcs.StrLessTransitive | src/core/ecs.ts:108-111 | native `<` on strings is transitive |
| CoreEcs.CompareWith | src/core/ecs.ts:42-68 | `compareTo` against a vector is 0 exactly on equality, and against a non-vector reference (undefined coordinates) it is 0 |
| CoreEcs.Eval | src/core/ecs.ts:97-124 | applies `eq`, `lt`, `gt` or `not` to a candidate: a Vector3 candidate through its `compareTo` result 0, -1 or 1, a primitive through `===`, `<` or `>` |
| CoreEcs.Lte | src/core/ecs.ts:113-115 | `lte(v)` is built as `not(gt(v))`, not as a comparison of its own |
| CoreEcs.Gte | src/core/ecs.ts:117-119 | `gte(v)` is built as `not(lt(v))` |
| CoreEcs.NotNegates | src/core/ecs.ts:97-101 | `not(p)(o) == !p(o)` |
| CoreEcs.EqMeansEqual | src/core/ecs.ts:103-106 | `eq(v)(o)` is equality, except that a Vector3 candidate passes against any non-vector reference |
| CoreEcs.EqSymmetric | test/core/unit/ecs.spec.ts:90-95 | for values of one kind, `eq(a)(b) == eq(b)(a)` |
| CoreEcs.LtGtDual | src/core/ecs.ts:108-124 | for values of one kind, `lt(a)(b) == gt(b)(a)` |
| CoreEcs.Trichotomy | src/core/ecs.ts:103-124 | for values of one kind exactly one of `lt(v)(o)`, `eq(v)(o)`, `gt(v)(o)` holds |
| CoreEcs.LtTransitive | src/core/ecs.ts:108-111 | `lt` orders values of one kind transitively |
| CoreEcs.LteMeansAtMost | src/core/ecs.ts:113-115 | `lte(v)(o) == !gt(v)(o)`; for values of one kind it means `lt` or `eq` |
| CoreEcs.GteMeansAtLeast | src/core/ecs.ts:117-119 | `gte(v)(o) == !lt(v)(o)`; for values of one kind it means `gt` or `eq` |
| CoreEcs.CombinatorTable | test/core/unit/ecs.spec.ts:68-159 | rows of the `eq`, `lt` and `gt` tests on integers, booleans, strings and vectors |
| CoreEcs.Overlay | src/core/ecs.ts:174-176 | the record after `entity[prop] = extraValues[prop]` for each pair in turn |
| CoreEcs.OverlayMeaning | src/core/ecs.ts:174-176 | after the writes the record's names are the old ones plus the bag's; each bag name holds its new value (inserted or overwritten); every other attribute is unchanged |
| CoreEcs.OverlayIdempotent | src/core/ecs.ts:166-167 | merging the bag again into the already updated record (`Object.assign({}, realEntity, extraValues)`) changes nothing |
| CoreEcs.Listed | src/core/ecs.ts:189-194 | one index list after `some(e => e.id === entity.id)` and the conditional `push` |
| CoreEcs.ListedOnce | src/core/ecs.ts:189-194 | the conditional push keeps a list duplicate-free, leaves its old entries in place and makes the entity a member |
| CoreEcs.Enlisted | src/core/ecs.ts:174-195 | the index after the loop of `addProperties`: for each name in turn the list is created if missing and passed through `Listed` |
| CoreEcs.EnlistedMeaning | src/core/ecs.ts:174-195 | after the loop every bag name has a list (created if missing) that is the old list with the entity appended if absent; all other lists are untouched |
| CoreEcs.EnlistedIdempotent | src/core/ecs.ts:189-194 | assigning the same names to the same entity again leaves the index unchanged: entries are never duplicated |
| CoreEcs.AddKeepsConsistent | src/core/ecs.ts:170-196 | writing a bag keeps the index consistent with the table: lists are duplicate-free, and an entity is listed under a name exactly when it carries that attribute |
| CoreEcs.AddEmptyKeepsConsistent | src/core/ecs.ts:141-145 | registering a new entity with no attributes keeps the index consistent |
| CoreEcs.Matching | src/core/ecs.ts:208-210 | the filtered list holds exactly the listed entities whose value passes the predicate, and is no longer than the list |
| CoreEcs.MatchingScope | src/core/ecs.ts:208-210 | an entity matches a clause exactly when it carries the attribute with a passing value; one without the attribute never matches, `not(eq(x))` included |
| CoreEcs.CandidateLists | src/core/ecs.ts:206-210 | there is one candidate list per clause, holding exactly the entities that carry that attribute with a passing value |
| CoreEcs.FindIds | src/core/ecs.ts:198-221 | the ids `find` answers with: every entity in creation order for an empty query, else the fold of the candidate lists |
| CoreEcs.Snapshots | src/core/ecs.ts:203-220 | the records `find` hands back: one per answered id, in answer order, each holding that id and the entity's current attributes |
| CoreEcs.MatchingDistinct | src/core/ecs.ts:208-210 | filtering a duplicate-free index list leaves it duplicate-free |
| CoreEcs.FindIdsDistinct | src/core/ecs.ts:198-221 | in a World reached through `createEntity` and `assign`, `find` reports each entity at most once: index lists hold no duplicates (`addProperties` pushes only when absent), and neither the filter nor the fold adds any; the empty query lists ids issued from the shared counter |
| CoreEcs.FindMatchesAll | src/core/ecs.ts:198-221 | every answer carries the last queried attribute with a passing value; while the running result never empties, the answer is the first clause's matches that meet every later clause, in first-clause order, i.e. exactly the entities meeting all clauses |
| CoreEcs.CreateKeepsInvariant | src/core/ecs.ts:136-152 | creating an entity with its initial bag keeps the World invariant (issued ids, table keys, consistent index), and the new id was not yet in the table |
| CoreEcs.AddKeepsInvariant | src/core/ecs.ts:154-168 | writing a bag to an existing entity keeps the World invariant |
| CoreEcs.World.constructor | src/core/ecs.ts:126-134 | a new World has counter 0, no entities and an empty index, and satisfies the invariant |
| CoreEcs.World.CreateEntity | src/core/ecs.ts:136-152 | the id is prefix + String(old counter) and was unused; the counter goes up by exactly 1; the entity is appended in creation order; the returned copy holds the id and every initial attribute; the table gains exactly that record; the index is updated as `addProperties` does |
| CoreEcs.World.Assign | src/core/ecs.ts:154-168 | on an unknown id it fails and changes nothing; otherwise it writes the bag into the canonical record, updates the index, leaves counter and creation order alone and returns the canonical record with the bag merged in |
| CoreEcs.World.AddProperties | src/core/ecs.ts:170-196 | the loop leaves the entity's record overlaid with the bag, pair by pair, and the index updated name by name |
| CoreEcs.World.AddProperty | src/core/ecs.ts:175-194 | one pass of the loop: the value is written, the name's list exists afterwards (so the guarded lookup failure cannot happen) and gains the entity only if absent |
| CoreEcs.World.Find | src/core/ecs.ts:198-221 | an empty query returns every entity in creation order with its current attributes; otherwise the answer is the fold of the per-clause candidate lists, with the reset; no entity is reported twice |
| ProtoEcs.CompareTo | src/ecs.ts:9-23 | `Vector2.compareTo`, with its own branch order, answers 0 exactly for equal vectors, -1 exactly when the first is smaller by y, then x, 1 exactly when larger |
| ProtoEcs.CompareToAntisymmetric | src/ecs.ts:9-23 | swapping the arguments negates the answer |
| ProtoEcs.KeyOrderIsStrictTotal | src/ecs.ts:9-23 | the y-x key order is irreflexive, total and transitive |
| ProtoEcs.CompareToTable | test/unit/ecs.spec.ts:4-37 | the test's comparison rows, plus a pair ordered differently from (x, y) lexicographic order |
| ProtoEcs.CompareWith | src/ecs.ts:9-23 | `compareTo` against a vector is 0 exactly on equality; against a non-vector it falls through to -1 |
| ProtoEcs.Eq | src/ecs.ts:47-50 | `eq(reference)(candidate)` on a value: `compareTo(reference) === 0` for a Vector2 candidate, `===` otherwise |
| ProtoEcs.EqMeansEqual | src/ecs.ts:47-50 | in the prototype `eq(v)(o)` is plain equality for every pair of values |
| ProtoEcs.EqSymmetric | src/ecs.ts:47-50 | `eq(a)(b) == eq(b)(a)` for all values |
| ProtoEcs.SpliceOne | src/ecs.ts:90 | `splice(start, 1)`: a negative start counts back from the end, a start past the end removes nothing; `ProtoEcs.SpliceOut` applies it at the position `indexOf` gives |
| ProtoEcs.SpliceOut | src/ecs.ts:90 | `splice(indexOf(target), 1)` on one index list; its effect is stated by `ProtoEcs.SpliceOutPresent` and `ProtoEcs.SpliceOutAbsent` |
| ProtoEcs.IndexOf | src/ecs.ts:90 | `indexOf` gives -1 exactly when the entity is absent, and otherwise the position of its first occurrence |
| ProtoEcs.SpliceOutPresent | src/ecs.ts:86-92 | when the entity is listed, the delete trap removes its first occurrence and nothing else (one copy fewer, counted with repetition) |
| ProtoEcs.SpliceOutAbsent | src/ecs.ts:86-92 | when the entity is not listed, the delete trap removes the list's last entry instead (an empty list stays empty) |
| ProtoEcs.SpliceOutWrongEntry | src/ecs.ts:90 | deleting cln2 from [srv0, srv1] leaves [srv0] |
| ProtoEcs.SetIndex | src/ecs.ts:68-85 | the index after the set trap: the list is created if missing and the entity appended unconditionally |
| ProtoEcs.DeleteIndex | src/ecs.ts:86-98 | the index after the delete trap: when a list exists, `splice(indexOf(entity), 1)` is applied to it |
| ProtoEcs.SetIndexCounts | src/ecs.ts:68-85 | the set trap adds one entry for the entity under the name, even when it is already listed, and touches no other list |
| ProtoEcs.DeleteIndexScope | src/ecs.ts:86-98 | the delete trap touches only the list under the deleted name and takes at most one entry from it |
| ProtoEcs.SetThenDeleteRestores | src/ecs.ts:68-98 | a write followed by a delete of the same name on the same entity restores the list's entries, counted with repetition |
| ProtoEcs.DeleteDropsWrongEntity | src/ecs.ts:86-98 | on the index alone: srv0 listed under hp, then the delete trap run for srv1 on hp, leaves the list under hp empty |
| ProtoEcs.WrongEntryDelete | src/ecs.ts:60-98 | from a new World: create srv0 and srv1, write hp on srv0, delete hp on srv1; the list under hp ends empty while srv0 still carries hp |
| ProtoEcs.EqTest | src/ecs.ts:47-50 | `eq(reference)` applied to `e[prop]`: `Eq` on a value; on `undefined` it throws, because `isComparable` reads `undefined.compareTo` (src/ecs.ts:37) |
| ProtoEcs.EqTestMeaning | src/ecs.ts:36-50 | the `eq` clause never throws on a value, throws on `undefined`, and on a value answers `Eq` |
| ProtoEcs.ValueAt | src/ecs.ts:119 | `e[prop]`: the entity's value under the name, or `undefined` when it does not carry it |
| ProtoEcs.Matching | src/ecs.ts:119 | the filter throws exactly when the test throws on some listed entity's `e[prop]`; otherwise it holds exactly the listed entities whose test passes, each as many times as it is listed |
| ProtoEcs.Candidates | src/ecs.ts:117-119 | one clause's index list (an empty one when there is none) filtered by `predicate(e[prop])` |
| ProtoEcs.NoThrow | src/ecs.ts:117-119 | no clause's filter throws |
| ProtoEcs.CandidateLists | src/ecs.ts:117-119 | when no filter throws, one candidate list per clause, in query order |
| ProtoEcs.FoldStep | src/ecs.ts:117-127 | one pass of the loop over a clause whose filter does not throw extends the fold by that clause's candidate list |
| ProtoEcs.CandidatesPass | src/ecs.ts:117-119 | each clause's candidate list holds exactly the entities listed under its name whose value passes its test |
| ProtoEcs.FindMatchesAll | src/ecs.ts:107-130 | when no predicate throws, every answer passes the last clause; while the running result never empties, the answer is the first clause's candidates that pass every later clause, in first-clause order, i.e. exactly the entities passing every clause |
| ProtoEcs.FreshIndexNoThrow | src/ecs.ts:117-119 | when every entity listed under a queried name still carries it, and every predicate answers on every value (as `eq` does), the query does not throw |
| ProtoEcs.StaleThrows | src/ecs.ts:36-50 | an entity listed under a queried name without carrying it, queried with a predicate that throws on `undefined` such as `eq`, makes the whole query throw |
| ProtoEcs.DoubleWriteDoubleAnswer | src/ecs.ts:68-85 | an entity written twice under hp is reported twice by a query on hp |
| ProtoEcs.StaleEntryThrows | src/ecs.ts:68-130 | from a new World: create srv0, write hp twice, delete hp once, and `find` on hp with `eq` throws |
| ProtoEcs.CreateKeepsInvariant | src/ecs.ts:60-104 | creating an entity keeps the prototype World invariant (issued ids, table keys, index entries name known entities) and the new id was unused |
| ProtoEcs.SetKeepsInvariant | src/ecs.ts:68-85 | the set trap keeps the invariant |
| ProtoEcs.DeleteKeepsInvariant | src/ecs.ts:86-98 | the delete trap keeps the invariant, whichever entry it splices out |
| ProtoEcs.World.constructor | src/ecs.ts:52-58 | a new World has counter 0, no entities and an empty index |
| ProtoEcs.World.CreateEntity | src/ecs.ts:60-104 | the id is prefix + String(old counter) and was unused; the counter goes up by exactly 1; the entity is appended to `entities` with no attributes; the index is unchanged |
| ProtoEcs.World.SetProp | src/ecs.ts:68-85 | the value is written and the entity appended to the name's list, created if missing, unconditionally |
| ProtoEcs.World.DeleteProp | src/ecs.ts:86-98 | the attribute is removed and, when a list exists under the name, the entry chosen by `splice(indexOf(entity), 1)` leaves it |
| ProtoEcs.World.Find | src/ecs.ts:107-130 | an empty query returns `entities` itself, in creation order and duplicate-free; otherwise it throws exactly when some clause's predicate throws on a listed entity's `e[prop]`, and else answers the fold of the per-clause candidate lists, with the reset |

## Left out

- Floating point. `Vector3` stores its coordinates in a `Float32Array`, and JavaScript numbers are doubles. Coordinates and numeric attributes are modelled as unbounded integers, so Float32 rounding, NaN and fractional values are not modelled.
- Type coercion. `<` and `>` between a primitive candidate and a reference of another kind coerce their operands. The core model requires (`CoreEcs.Defined`, `CoreEcs.QueryDefined`) that no such comparison is made. `===`, and any comparison with a vector candidate, are modelled for every pair of kinds.
- `isComparable` (src/core/ecs.ts:86-88) is not a function of its own. It is the `Vec?` test inside `CoreEcs.Eval` and `ProtoEcs.Eq`: only a vector has a `compareTo` member.
- `Object.freeze` and `Object.assign` are not modelled as such. Returned records are immutable values (`CoreEcs.Entity`). In the source both are shallow: the copy's top-level attributes cannot be reassigned, but an attribute that is an object is shared (see the aliasing line below).
- The prototype's two objects per entity are not modelled. `createEntity` returns the proxy and pushes it into `entities` (src/ecs.ts:102-103), so `find({})` hands out proxies. The set trap pushes the raw `target` into the index (src/ecs.ts:77), so a non-empty `find` hands out raw targets (src/ecs.ts:119, :129), and `find({})[0] !== find({hp: eq(3)})[0]` for the same entity. A write or `delete` through such a target skips both traps, `ProtoEcs.World.SetProp` and `ProtoEcs.World.DeleteProp`: it is a second way, besides the double write, to leave the index stale. The model names both objects by one id.
- Aliasing is not modelled:
  - Core `find` returns the live, unfrozen canonical records (src/core/ecs.ts:203, :220), the same objects the index lists (:193), where the model returns their current contents. A write or `delete` through such a record bypasses `addProperties` and leaves the index stale. After `delete world.find({bob: eq(7)})[0].bob` the entity stays listed under `bob`, and the next `find` on `bob` with `eq`, `lt` or `gt` calls the predicate on `undefined`, which throws in `isComparable` (:87). After `world.find({})[0].hp = 3` the entity is missing from the `hp` list, and `find({hp: eq(3)})` misses it. The model has no such writes.
  - The prototype's `find({})` returns the `entities` array itself, where the model returns its current contents.
  - A `Vector3` attribute is one mutable object, since its setters write its `Float32Array` (src/core/ecs.ts:22-40). The caller's bag, the canonical record, every returned copy and every `find` answer share it, so `copy.position.x = 5` changes what later queries see. The model's `Value` is immutable and drops this.
- The `Proxy` mechanism is not modelled. Its two traps are the methods `ProtoEcs.World.SetProp` and `ProtoEcs.World.DeleteProp`. Attribute names are strings, so the symbol-key branches are out. The traps' `true` result is not modelled.
- The prototype World's optional initial `entities` array (src/ecs.ts:56) is not modelled. Such entities would have no proxy and no issued id. `ProtoEcs.World.constructor` starts empty.
- A thrown exception is the single outcome `ProtoEcs.Threw`; the error object and the point in the loop where it was raised are not modelled. Core `find` has no such case as long as callers change entities only through `createEntity` and `assign`: the index is then proved consistent with the records (`CoreEcs.AddKeepsConsistent`), so its predicates never see `undefined`.
- `CoreEcs.StrLess` orders strings by Unicode code point, because a Dafny `char` is a Unicode scalar value. JavaScript's `<` compares UTF-16 code units, so the two differ on characters beyond U+FFFF (`"\uFFFF" < "\u{10000}"` is false in JavaScript and true in the model), and lone surrogates cannot be represented. The order properties proved (`CoreEcs.StrTrichotomy`, `CoreEcs.StrLessTransitive`) hold of both orders.
- The `prefix == null` branch of `createEntity` is not modelled, because the parameter type rules it out. A missing bag in core `createEntity` is the empty bag, which gives the same result.
- `id` as an attribute name is excluded by `NoIdKey` and `p != "id"`, because writing it would overwrite the entity's id.
- Attribute bags are required to have distinct names, as an object's keys do. The order of the pairs stands for the order `for ... in` visits the keys. That order puts integer-like keys first, and the model takes it as given.
- Counter range is not modelled. The counter is an unbounded natural number. In the source, `this.id++` at 2^53 gives 2^53 again (2^53 + 1 rounds back to 2^53 as a double), so the source would issue the same id twice from then on, and `Ids.IssuedIdsDistinct` would not hold of it.
- `toString` and the `Positionable` interfaces are not modelled. They play no part in storage or queries.
- `CoreEcs.World.Find` states its answer as a fold of the candidate lists, not as the intersection. The intersection holds only while the running result never empties; `CoreEcs.FindMatchesAll` proves it for that case. `ProtoEcs.World.Find` and `ProtoEcs.FindMatchesAll` are the same when no predicate throws.
