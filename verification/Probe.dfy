/**
  Aggregated probe status, `crates/vo-actor/src/probe.rs:239-286`.

  Probe ids are a type parameter. The counters are naturals; they add up to the number of
  probes, so they fit the source's 32 bits as long as that number does.
 */
module Probe {

  datatype Status = Healthy | Unhealthy | Unknown

  /** The latest result of each probe; only the status matters to the aggregate. */
  type Results<!Id> = map<Id, Status>

  ghost function With<Id>(results: Results<Id>, status: Status): set<Id> {
    set id | id in results && results[id] == status
  }

  /** The meaning of the overall status. */
  ghost predicate IsOverall<Id>(results: Results<Id>, overall: Status) {
    match overall
    case Unhealthy => exists id :: id in results && results[id] == Unhealthy
    case Healthy => results != map[] && forall id :: id in results ==> results[id] == Healthy
    case Unknown =>
      && (forall id :: id in results ==> results[id] != Unhealthy)
      && (results == map[] || exists id :: id in results && results[id] == Unknown)
  }

  lemma WithUpdated<Id>(results: Results<Id>, id: Id, status: Status, s: Status)
    ensures |With(results[id := status], s)|
         == |With(results, s)| - (if id in results && results[id] == s then 1 else 0) + (if status == s then 1 else 0)
  {
    var others := With(results, s) - {id};
    assert With(results[id := status], s) == if status == s then others + {id} else others;
    assert With(results, s) == if id in results && results[id] == s then others + {id} else others;
  }

  lemma CountsAddUp<Id>(results: Results<Id>)
    ensures |With(results, Healthy)| + |With(results, Unhealthy)| + |With(results, Unknown)| == |results|
  {
    var h, u, n := With(results, Healthy), With(results, Unhealthy), With(results, Unknown);
    assert h + u + n == results.Keys;
    assert |h + u| == |h| + |u| && |h + u + n| == |h + u| + |n|;
  }

  /** Exactly one overall status fits. */
  lemma OverallIsUnique<Id>(results: Results<Id>, a: Status, b: Status)
    requires IsOverall(results, a) && IsOverall(results, b)
    ensures a == b
  {
  }

  class AggregatedStatus<Id(==)> {
    var overall: Status
    var healthyCount: nat
    var unhealthyCount: nat
    var unknownCount: nat
    var results: Results<Id>

    ghost predicate Valid()
      reads this
    {
      && healthyCount == |With(results, Healthy)|
      && unhealthyCount == |With(results, Unhealthy)|
      && unknownCount == |With(results, Unknown)|
      && IsOverall(results, overall)
    }

    constructor ()
      ensures Valid() && results == map[]
    {
      overall, healthyCount, unhealthyCount, unknownCount, results := Unknown, 0, 0, 0, map[];
    }

    /** Every decrement is of a positive counter. */
    method Update(id: Id, status: Status)
      requires Valid()
      modifies this
      ensures Valid() && results == old(results)[id := status]
      ensures healthyCount + unhealthyCount + unknownCount == |results|
    {
      WithUpdated(results, id, status, Healthy);
      WithUpdated(results, id, status, Unhealthy);
      WithUpdated(results, id, status, Unknown);
      if id in results {
        assert id in With(results, results[id]);
        var oldStatus := results[id];
        match oldStatus {
          case Healthy => healthyCount := healthyCount - 1;
          case Unhealthy => unhealthyCount := unhealthyCount - 1;
          case Unknown => unknownCount := unknownCount - 1;
        }
      }
      match status {
        case Healthy => healthyCount := healthyCount + 1;
        case Unhealthy => unhealthyCount := unhealthyCount + 1;
        case Unknown => unknownCount := unknownCount + 1;
      }
      results := results[id := status];
      CountsAddUp(results);
      OverallFromCounts(results);
      overall :=
        if unhealthyCount > 0 then Unhealthy
        else if healthyCount > 0 && unknownCount == 0 then Healthy
        else Unknown;
    }

    method IsHealthy() returns (r: bool)
      requires Valid()
      ensures r <==> results != map[] && forall id :: id in results ==> results[id] == Healthy
    {
      if overall != Healthy && results != map[] && (forall id :: id in results ==> results[id] == Healthy) {
        OverallIsUnique(results, overall, Healthy);
      }
      r := overall == Healthy;
    }
  }

  lemma NonEmptyWith<Id>(results: Results<Id>, s: Status)
    ensures |With(results, s)| > 0 <==> exists id :: id in results && results[id] == s
  {
    if |With(results, s)| > 0 {
      var id :| id in With(results, s);
    }
    if id :| id in results && results[id] == s {
      assert id in With(results, s);
    }
  }

  /** The overall status follows from the three counts alone. */
  lemma OverallFromCounts<Id>(results: Results<Id>)
    ensures IsOverall(results,
      if |With(results, Unhealthy)| > 0 then Unhealthy
      else if |With(results, Healthy)| > 0 && |With(results, Unknown)| == 0 then Healthy
      else Unknown)
  {
    NonEmptyWith(results, Healthy);
    NonEmptyWith(results, Unhealthy);
    NonEmptyWith(results, Unknown);
  }

  // ----- sequences of updates

  datatype Result<Id> = Result(id: Id, status: Status)

  /** The latest status of each probe after a sequence of updates. */
  function Latest<Id>(updates: seq<Result<Id>>): Results<Id> {
    if updates == [] then map[]
    else Latest(updates[..|updates| - 1])[updates[|updates| - 1].id := updates[|updates| - 1].status]
  }

  /** Result `k` of a history is the last one of its probe. */
  ghost predicate IsLast<Id>(updates: seq<Result<Id>>, k: nat, id: Id) {
    k < |updates| && updates[k].id == id && forall j :: k < j < |updates| ==> updates[j].id != id
  }

  /** The last result of a probe in a history has this status. */
  ghost predicate LastResult<Id>(updates: seq<Result<Id>>, id: Id, status: Status) {
    exists k: nat :: IsLast(updates, k, id) && updates[k].status == status
  }

  ghost predicate Has<Id>(results: Results<Id>, id: Id, status: Status) {
    id in results && results[id] == status
  }

  /** One more result is the last of its own probe and changes no other's. */
  lemma LastResultGrows<Id>(front: seq<Result<Id>>, x: Result<Id>, id: Id, status: Status)
    ensures LastResult(front + [x], id, status)
       <==> if x.id == id then x.status == status else LastResult(front, id, status)
  {
    var all, n := front + [x], |front|;
    if x.id == id {
      assert all[n] == x && (x.status == status ==> x == Result(id, status));
    } else {
      if k: nat :| IsLast(front, k, id) && front[k].status == status {
        assert IsLast(all, k, id) && all[k] == front[k];
      }
      if k: nat :| IsLast(all, k, id) && all[k].status == status {
        assert all[n] == x && k < n;
        assert forall j :: k < j < n ==> all[j] == front[j];
        assert IsLast(front, k, id) && all[k] == front[k];
      }
    }
  }

  /** The latest status is that of the last result, for every probe. */
  lemma {:induction false} LatestIsLast<Id>(updates: seq<Result<Id>>, id: Id, status: Status)
    ensures Has(Latest(updates), id, status) <==> LastResult(updates, id, status)
  {
    if |updates| > 0 {
      var front, x := updates[..|updates| - 1], updates[|updates| - 1];
      LatestIsLast(front, id, status);
      LastResultGrows(front, x, id, status);
      assert updates == front + [x];
    }
  }

  /** Histories in which every probe has the same last result leave the same aggregate, however interleaved. */
  lemma SameLastResults<Id(!new)>(a: seq<Result<Id>>, b: seq<Result<Id>>)
    requires forall id, status :: LastResult(a, id, status) <==> LastResult(b, id, status)
    ensures Latest(a) == Latest(b)
  {
    forall id: Id, status
      ensures Has(Latest(a), id, status) <==> Has(Latest(b), id, status)
    {
      LatestIsLast(a, id, status);
      LatestIsLast(b, id, status);
    }
    forall id
      ensures id in Latest(a) <==> id in Latest(b)
      ensures id in Latest(a) ==> Latest(a)[id] == Latest(b)[id]
    {
      assert id in Latest(a) ==> Has(Latest(b), id, Latest(a)[id]);
      assert id in Latest(b) ==> Has(Latest(a), id, Latest(b)[id]);
    }
  }

  lemma {:induction false} LatestAfter<Id>(a: seq<Result<Id>>, b: seq<Result<Id>>, more: seq<Result<Id>>)
    requires Latest(a) == Latest(b)
    ensures Latest(a + more) == Latest(b + more)
    decreases |more|
  {
    if more == [] {
      assert a + more == a && b + more == b;
    } else {
      LatestAfter(a, b, more[..|more| - 1]);
      assert (a + more)[..|a + more| - 1] == a + more[..|more| - 1];
      assert (b + more)[..|b + more| - 1] == b + more[..|more| - 1];
    }
  }

  /** Neighbouring updates of different probes may be swapped anywhere in a sequence. */
  lemma UpdatesCommute<Id>(before: seq<Result<Id>>, x: Result<Id>, y: Result<Id>, more: seq<Result<Id>>)
    requires x.id != y.id
    ensures Latest(before + [x, y] + more) == Latest(before + [y, x] + more)
  {
    assert (before + [x, y])[..|before| + 1] == before + [x] && (before + [x])[..|before|] == before;
    assert (before + [y, x])[..|before| + 1] == before + [y] && (before + [y])[..|before|] == before;
    assert Latest(before + [x, y]) == Latest(before)[x.id := x.status][y.id := y.status];
    assert Latest(before + [y, x]) == Latest(before)[y.id := y.status][x.id := x.status];
    LatestAfter(before + [x, y], before + [y, x], more);
  }

  /** The aggregate after any sequence of updates counts the probes by their latest status. */
  method Replay<Id(==)>(updates: seq<Result<Id>>) returns (a: AggregatedStatus<Id>)
    ensures a.Valid() && a.results == Latest(updates)
  {
    a := new AggregatedStatus<Id>();
    for i := 0 to |updates|
      invariant a.Valid() && fresh(a) && a.results == Latest(updates[..i])
    {
      a.Update(updates[i].id, updates[i].status);
      assert updates[..i + 1][..i] == updates[..i];
    }
    assert updates[..|updates|] == updates;
  }
}
