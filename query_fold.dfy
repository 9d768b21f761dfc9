/** The loop at the heart of both `find` implementations. Each queried attribute
    contributes one candidate list (the entities indexed under it whose value
    passes that attribute's predicate); the loop folds these lists, in query
    order, into a running result. Entities are named by their ids. */
module QueryFold {
  import opened Ids

  /** The index list under attribute `a`, `propertiesToEntities.get(a) || []`:
      a missing list reads as empty. */
  function Lookup(index: map<string, seq<string>>, a: string): seq<string>
  {
    if a in index then index[a] else []
  }

  /** `results.filter(value => additions.includes(value))`: the running result
      narrowed to what the next candidate list also holds, in the running
      result's own order. */
  function Keep(results: seq<string>, additions: seq<string>): (r: seq<string>)
    ensures forall x :: x in r <==> x in results && x in additions
    ensures |r| <= |results|
  {
    if results == [] then []
    else (if results[0] in additions then [results[0]] else []) + Keep(results[1..], additions)
  }

  /** Narrowing a duplicate-free running result keeps it duplicate-free. */
  lemma {:induction false} KeepDistinct(results: seq<string>, additions: seq<string>)
    requires Distinct(results)
    ensures Distinct(Keep(results, additions))
  {
    if results != [] {
      var tail := results[1..];
      assert Distinct(tail) by {
        forall i, j | 0 <= i < j < |tail|
          ensures tail[i] != tail[j]
        {
          assert tail[i] == results[i + 1] && tail[j] == results[j + 1];
        }
      }
      KeepDistinct(tail, additions);
      assert results[0] !in tail by {
        forall k | 0 <= k < |tail|
          ensures tail[k] != results[0]
        {
          assert tail[k] == results[k + 1];
        }
      }
      var head: seq<string> := if results[0] in additions then [results[0]] else [];
      var rest := Keep(tail, additions);
      var r := head + rest;
      forall i, j | 0 <= i < j < |r|
        ensures r[i] != r[j]
      {
        if i >= |head| {
          assert r[i] == rest[i - |head|] && r[j] == rest[j - |head|];
        } else {
          assert r[i] == results[0] && r[j] == rest[j - 1];
          assert r[j] in rest;
        }
      }
    }
  }

  /** One pass of the loop body: an empty running result is replaced by the next
      candidate list, a non-empty one is narrowed by it. */
  function Step(results: seq<string>, additions: seq<string>): seq<string>
  {
    if |results| == 0 then additions else Keep(results, additions)
  }

  /** The running result once the loop has consumed `lists`, in order. */
  function Sweep(lists: seq<seq<string>>): (r: seq<string>)
    ensures lists != [] ==> forall x :: x in r ==> x in lists[|lists| - 1]
  {
    if lists == [] then []
    else Step(Sweep(lists[..|lists| - 1]), lists[|lists| - 1])
  }

  /** When every candidate list is duplicate-free, so is the loop's answer:
      the reset takes a list as it is, and narrowing drops entries. */
  lemma {:induction false} SweepDistinct(lists: seq<seq<string>>)
    requires forall j :: 0 <= j < |lists| ==> Distinct(lists[j])
    ensures Distinct(Sweep(lists))
  {
    if lists != [] {
      var front := lists[..|lists| - 1];
      assert forall j :: 0 <= j < |front| ==> front[j] == lists[j];
      SweepDistinct(front);
      if |Sweep(front)| != 0 {
        KeepDistinct(Sweep(front), lists[|lists| - 1]);
      }
    }
  }

  /** The loop consumes one more list. */
  lemma SweepStep(lists: seq<seq<string>>, i: nat)
    requires i < |lists|
    ensures Sweep(lists[..i + 1]) == Step(Sweep(lists[..i]), lists[i])
  {
    assert lists[..i + 1][..i] == lists[..i];
  }

  /** `x` is in every one of `lists`. */
  predicate InAll(x: string, lists: seq<seq<string>>)
  {
    forall j :: 0 <= j < |lists| ==> x in lists[j]
  }

  /** The intersection the loop is meant to compute: `first` with every entry
      dropped that some list of `later` lacks, in `first`'s order. */
  function KeepInAll(first: seq<string>, later: seq<seq<string>>): (r: seq<string>)
    ensures forall x :: x in r <==> x in first && InAll(x, later)
    ensures |r| <= |first|
  {
    if first == [] then []
    else (if InAll(first[0], later) then [first[0]] else []) + KeepInAll(first[1..], later)
  }

  lemma {:induction false} KeepInAllOfNone(first: seq<string>)
    ensures KeepInAll(first, []) == first
  {
    if first != [] {
      KeepInAllOfNone(first[1..]);
      assert first == [first[0]] + first[1..];
    }
  }

  /** Narrowing an intersection by one more list is the intersection with that list added. */
  lemma {:induction false} KeepNarrows(first: seq<string>, later: seq<seq<string>>, next: seq<string>)
    ensures Keep(KeepInAll(first, later), next) == KeepInAll(first, later + [next])
  {
    if first != [] {
      KeepNarrows(first[1..], later, next);
      var rest := KeepInAll(first[1..], later);
      assert InAll(first[0], later + [next]) <==> InAll(first[0], later) && first[0] in next by {
        if InAll(first[0], later) && first[0] in next {
          forall j | 0 <= j < |later + [next]|
            ensures first[0] in (later + [next])[j]
          {
            if j < |later| {
              assert (later + [next])[j] == later[j];
            }
          }
        }
        if InAll(first[0], later + [next]) {
          forall j | 0 <= j < |later|
            ensures first[0] in later[j]
          {
            assert (later + [next])[j] == later[j];
          }
          assert (later + [next])[|later|] == next;
        }
      }
      if InAll(first[0], later) {
        var kept := KeepInAll(first, later);
        assert kept == [first[0]] + rest;
        assert kept[0] == first[0] && kept[1..] == rest;
        assert Keep(kept, next) == (if first[0] in next then [first[0]] else []) + Keep(rest, next);
      } else {
        assert KeepInAll(first, later) == rest;
        assert !InAll(first[0], later + [next]);
      }
    }
  }

  /** The loop never saw an empty running result after the first list. */
  ghost predicate NeverEmpty(lists: seq<seq<string>>)
  {
    forall k :: 1 <= k < |lists| ==> Sweep(lists[..k]) != []
  }

  /** While the running result stays non-empty, the loop computes the
      intersection of all candidate lists, in the first list's order. */
  lemma {:induction false} SweepIsIntersection(lists: seq<seq<string>>)
    requires |lists| > 0
    requires NeverEmpty(lists)
    ensures Sweep(lists) == KeepInAll(lists[0], lists[1..])
  {
    var n := |lists|;
    if n == 1 {
      assert lists[..0] == [];
      KeepInAllOfNone(lists[0]);
      assert lists[1..] == [];
    } else {
      var front := lists[..n - 1];
      assert NeverEmpty(front) by {
        forall k | 1 <= k < |front|
          ensures Sweep(front[..k]) != []
        {
          assert front[..k] == lists[..k];
        }
      }
      SweepIsIntersection(front);
      assert Sweep(front) != [] by {
        assert lists[..n - 1] == front;
      }
      assert front[0] == lists[0];
      KeepNarrows(lists[0], front[1..], lists[n - 1]);
      FrontTail(lists);
    }
  }

  lemma FrontTail(lists: seq<seq<string>>)
    requires |lists| >= 2
    ensures lists[..|lists| - 1][1..] + [lists[|lists| - 1]] == lists[1..]
  {
    var joined := lists[..|lists| - 1][1..] + [lists[|lists| - 1]];
    assert |joined| == |lists[1..]|;
    forall j | 0 <= j < |joined|
      ensures joined[j] == lists[1..][j]
    {
    }
  }

  /** While the running result never empties, the loop's answer holds exactly
      the entries found in every candidate list. */
  lemma SweepMembership(lists: seq<seq<string>>)
    requires |lists| > 0
    requires NeverEmpty(lists)
    ensures forall x :: x in Sweep(lists) <==> InAll(x, lists)
  {
    SweepIsIntersection(lists);
    forall x
      ensures x in Sweep(lists) <==> InAll(x, lists)
    {
      if InAll(x, lists) {
        assert InAll(x, lists[1..]) by {
          forall j | 0 <= j < |lists[1..]|
            ensures x in lists[1..][j]
          {
            assert lists[1..][j] == lists[j + 1];
          }
        }
      }
      if x in Sweep(lists) {
        forall j | 0 <= j < |lists|
          ensures x in lists[j]
        {
          if j > 0 {
            assert lists[1..][j - 1] == lists[j];
          }
        }
      }
    }
  }

  /** Once the running result is empty, the next candidate list replaces it
      outright: the clauses consumed so far are forgotten. */
  lemma SweepRestarts(lists: seq<seq<string>>, k: nat)
    requires k < |lists|
    requires Sweep(lists[..k]) == []
    ensures Sweep(lists[..k + 1]) == lists[k]
  {
    assert lists[..k + 1][..k] == lists[..k];
  }

  /** So the loop is not an intersection in general: a first clause that
      nothing satisfies does not keep the second clause's matches out. */
  lemma SweepIsNotIntersection()
    ensures Sweep([[], ["cln1"]]) == ["cln1"]
    ensures KeepInAll([], [["cln1"]]) == []
  {
    var lists: seq<seq<string>> := [[], ["cln1"]];
    assert lists[..1] == [[]];
    assert lists[..1][..0] == [];
  }
}
