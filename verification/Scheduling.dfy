/**
  Bead selection with borrowing, `fleet-feed/src/scheduling.rs:37-96`.

  A polecat takes the first ready bead of its own rig's pool; failing that, of the pool with
  the most ready beads among the other rigs whose polecat of the same name is idle or dead
  (the last such pool when several tie). A rig is represented by its kind.
 */
module Scheduling {
  import opened Options

  datatype RigKind = Veloxide | Hardline | Twerk | Seshat | CentralizedDocs | Clarity
  datatype PolecatStatus = Working | Idle | Dead

  datatype Bead = Bead(id: string, assignee: Option<string>)
  datatype Pool = Pool(rig: RigKind, beads: seq<Bead>, claimed: set<string>)
  datatype Cycle = Cycle(rig: RigKind, fleet: seq<string>, statuses: seq<PolecatStatus>)

  /** The chosen pool by position, its rig, and the bead handed out. */
  datatype Selected = Selected(pool: nat, rig: RigKind, bead: string)

  predicate Ready(pool: Pool, bead: Bead) {
    bead.assignee.None? && bead.id !in pool.claimed
  }

  function CountReady(pool: Pool, beads: seq<Bead>): nat {
    if beads == [] then 0
    else CountReady(pool, beads[..|beads| - 1]) + (if Ready(pool, beads[|beads| - 1]) then 1 else 0)
  }

  /** `unassigned_ready_count`. */
  function ReadyCount(pool: Pool): nat {
    CountReady(pool, pool.beads)
  }

  function FirstCycle(cycles: seq<Cycle>, rig: RigKind): Option<Cycle> {
    if cycles == [] then None
    else if cycles[0].rig == rig then Some(cycles[0])
    else FirstCycle(cycles[1..], rig)
  }

  /** The first position of a name. */
  function Position(names: seq<string>, name: string): (p: Option<nat>)
    ensures p.Some? ==> p.value < |names| && names[p.value] == name && name !in names[..p.value]
    ensures p.None? ==> name !in names
  {
    if names == [] then None
    else if names[0] == name then Some(0)
    else
      var rest := Position(names[1..], name);
      assert forall n :: 0 <= n < |names| - 1 ==> names[..n + 1] == [names[0]] + names[1..][..n];
      if rest.None? then None else Some(rest.value + 1)
  }

  /** `source_polecat_can_take`: the rig's polecat of that name is known to be idle or dead. */
  predicate SourceCanTake(cycles: seq<Cycle>, rig: RigKind, name: string) {
    var cycle := FirstCycle(cycles, rig);
    cycle.Some? &&
    var at := Position(cycle.value.fleet, name);
    && at.Some? && at.value < |cycle.value.statuses|
    && (cycle.value.statuses[at.value] == Dead || cycle.value.statuses[at.value] == Idle)
  }

  function Claim(pool: Pool, id: string): Pool {
    pool.(claimed := pool.claimed + {id})
  }

  // ----- what a selection must be

  ghost predicate HasReady(pool: Pool) {
    exists k :: 0 <= k < |pool.beads| && Ready(pool, pool.beads[k])
  }

  ghost predicate IsFirstReady(pool: Pool, k: nat) {
    k < |pool.beads| && Ready(pool, pool.beads[k]) && forall j :: 0 <= j < k ==> !Ready(pool, pool.beads[j])
  }

  /** `id` is the id of the pool's first ready bead. */
  ghost predicate HandsOut(pool: Pool, id: string) {
    exists k: nat :: IsFirstReady(pool, k) && pool.beads[k].id == id
  }

  lemma HandedOutWasReady(pool: Pool, id: string)
    requires HandsOut(pool, id)
    ensures HasReady(pool) && id !in pool.claimed
    ensures exists k :: 0 <= k < |pool.beads| && Ready(pool, pool.beads[k]) && pool.beads[k].id == id
  {
    var k: nat :| IsFirstReady(pool, k) && pool.beads[k].id == id;
    assert Ready(pool, pool.beads[k]);
  }

  lemma HandedOutIsDetermined(pool: Pool, id: string, id': string)
    requires HandsOut(pool, id) && HandsOut(pool, id')
    ensures id == id'
  {
    var k: nat :| IsFirstReady(pool, k) && pool.beads[k].id == id;
    var k': nat :| IsFirstReady(pool, k') && pool.beads[k'].id == id';
    assert k <= k' && k' <= k;
  }

  /** The first pool of the polecat's own rig. */
  ghost predicate IsLocal(pools: seq<Pool>, target: RigKind, p: nat) {
    p < |pools| && pools[p].rig == target && forall q :: 0 <= q < p ==> pools[q].rig != target
  }

  ghost predicate Borrowable(pools: seq<Pool>, target: RigKind, name: string, cycles: seq<Cycle>, p: nat) {
    p < |pools| && pools[p].rig != target && SourceCanTake(cycles, pools[p].rig, name)
  }

  /** The last of the borrowable pools with the most ready beads. */
  ghost predicate IsBestBorrow(pools: seq<Pool>, target: RigKind, name: string, cycles: seq<Cycle>, p: nat) {
    && Borrowable(pools, target, name, cycles, p)
    && forall q: nat :: Borrowable(pools, target, name, cycles, q) ==>
         ReadyCount(pools[q]) < ReadyCount(pools[p]) || (ReadyCount(pools[q]) == ReadyCount(pools[p]) && q <= p)
  }

  ghost predicate LocalHasReady(pools: seq<Pool>, target: RigKind) {
    exists p: nat :: IsLocal(pools, target, p) && HasReady(pools[p])
  }

  /** The pools a polecat may take from. */
  ghost predicate Reachable(pools: seq<Pool>, target: RigKind, name: string, cycles: seq<Cycle>, p: nat) {
    IsLocal(pools, target, p) || Borrowable(pools, target, name, cycles, p)
  }

  ghost predicate Selects(before: seq<Pool>, after: seq<Pool>, target: RigKind, name: string, cycles: seq<Cycle>,
                          r: Option<Selected>)
  {
    match r
    case None =>
      after == before && forall p: nat :: Reachable(before, target, name, cycles, p) ==> !HasReady(before[p])
    case Some(Selected(p, rig, bead)) =>
      && p < |before| && rig == before[p].rig
      && HandsOut(before[p], bead)
      && after == before[p := Claim(before[p], bead)]
      && (if LocalHasReady(before, target) then IsLocal(before, target, p)
          else IsBestBorrow(before, target, name, cycles, p))
  }

  // ----- counting

  lemma {:induction false} CountPositive(pool: Pool, beads: seq<Bead>)
    ensures CountReady(pool, beads) > 0 <==> exists k :: 0 <= k < |beads| && Ready(pool, beads[k])
  {
    if beads != [] {
      var front := beads[..|beads| - 1];
      CountPositive(pool, front);
      if k :| 0 <= k < |front| && Ready(pool, front[k]) {
        assert Ready(pool, beads[k]);
      }
      if k :| 0 <= k < |beads| && Ready(pool, beads[k]) {
        assert k < |front| ==> Ready(pool, front[k]);
      }
    }
  }

  /** Claiming a ready bead lowers the count: it, and any bead with its id, is no longer ready. */
  lemma {:induction false} ClaimLowers(pool: Pool, id: string, beads: seq<Bead>)
    ensures CountReady(Claim(pool, id), beads) <= CountReady(pool, beads)
    ensures (exists k :: 0 <= k < |beads| && Ready(pool, beads[k]) && beads[k].id == id) ==>
      CountReady(Claim(pool, id), beads) < CountReady(pool, beads)
  {
    if beads != [] {
      var front := beads[..|beads| - 1];
      ClaimLowers(pool, id, front);
      if k :| 0 <= k < |beads| && Ready(pool, beads[k]) && beads[k].id == id {
        assert k < |front| ==> Ready(pool, front[k]) && front[k].id == id;
      }
    }
  }

  function TotalReady(pools: seq<Pool>): nat {
    if pools == [] then 0 else TotalReady(pools[..|pools| - 1]) + ReadyCount(pools[|pools| - 1])
  }

  lemma {:induction false} TotalUpdate(pools: seq<Pool>, p: nat, pool: Pool)
    requires p < |pools|
    ensures TotalReady(pools[p := pool]) == TotalReady(pools) - ReadyCount(pools[p]) + ReadyCount(pool)
  {
    var front := pools[..|pools| - 1];
    if p == |front| {
      assert pools[p := pool][..|front|] == front;
    } else {
      assert pools[p := pool][..|front|] == front[p := pool];
      TotalUpdate(front, p, pool);
    }
  }

  // ----- the code

  /** `take_bead_from_pool` on the pool at position `p`. */
  method TakeBead(pools: array<Pool>, p: nat) returns (r: Option<Selected>)
    requires p < pools.Length
    modifies pools
    ensures r.None? ==> !HasReady(old(pools[p])) && pools[..] == old(pools[..])
    ensures r.Some? ==>
      && r.value.pool == p && r.value.rig == old(pools[p]).rig
      && HandsOut(old(pools[p]), r.value.bead)
      && pools[..] == old(pools[..])[p := Claim(old(pools[p]), r.value.bead)]
  {
    var pool := pools[p];
    var k := 0;
    while k < |pool.beads| && !Ready(pool, pool.beads[k])
      invariant 0 <= k <= |pool.beads|
      invariant forall j :: 0 <= j < k ==> !Ready(pool, pool.beads[j])
    {
      k := k + 1;
    }
    if k == |pool.beads| {
      return None;
    }
    assert IsFirstReady(pool, k);
    var id := pool.beads[k].id;
    pools[p] := pool.(claimed := pool.claimed + {id});
    r := Some(Selected(p, pool.rig, id));
  }

  /** The position of the polecat's own pool. */
  method FindLocal(pools: array<Pool>, target: RigKind) returns (r: Option<nat>)
    ensures r.Some? ==> IsLocal(pools[..], target, r.value)
    ensures r.None? ==> forall p: nat :: !IsLocal(pools[..], target, p)
  {
    for i := 0 to pools.Length
      invariant forall q :: 0 <= q < i ==> pools[q].rig != target
    {
      if pools[i].rig == target {
        return Some(i);
      }
    }
    r := None;
  }

  /** `max_by_key` over the borrowable pools: the last of the largest. */
  method FindBorrow(pools: array<Pool>, target: RigKind, name: string, cycles: seq<Cycle>) returns (r: Option<nat>)
    ensures r.Some? ==> IsBestBorrow(pools[..], target, name, cycles, r.value)
    ensures r.None? ==> forall p: nat :: !Borrowable(pools[..], target, name, cycles, p)
  {
    r := None;
    for i := 0 to pools.Length
      invariant r.None? ==> forall q: nat :: q < i ==> !Borrowable(pools[..], target, name, cycles, q)
      invariant r.Some? ==> r.value < i && Borrowable(pools[..], target, name, cycles, r.value)
      invariant r.Some? ==> forall q: nat :: q < i && Borrowable(pools[..], target, name, cycles, q) ==>
        (ReadyCount(pools[q]) < ReadyCount(pools[r.value])
         || (ReadyCount(pools[q]) == ReadyCount(pools[r.value]) && q <= r.value))
    {
      var eligible := pools[i].rig != target && SourceCanTake(cycles, pools[i].rig, name);
      assert eligible <==> Borrowable(pools[..], target, name, cycles, i);
      if eligible && (r.None? || ReadyCount(pools[i]) >= ReadyCount(pools[r.value])) {
        r := Some(i);
      }
    }
  }

  method SelectBeadForPolecat(target: RigKind, name: string, pools: array<Pool>, cycles: seq<Cycle>)
    returns (r: Option<Selected>)
    modifies pools
    ensures Selects(old(pools[..]), pools[..], target, name, cycles, r)
  {
    ghost var before := pools[..];
    var local := FindLocal(pools, target);
    if local.Some? {
      r := TakeBead(pools, local.value);
      if r.Some? {
        HandedOutWasReady(before[local.value], r.value.bead);
        assert IsLocal(before, target, local.value) && HasReady(before[local.value]);
        return;
      }
    }
    assert pools[..] == before;
    NoLocalReady(before, target, local);
    var borrow := FindBorrow(pools, target, name, cycles);
    if borrow.None? {
      return None;
    }
    r := TakeBead(pools, borrow.value);
    if r.None? {
      NoReadyAnywhere(before, target, name, cycles, borrow.value);
    }
  }

  lemma NoLocalReady(pools: seq<Pool>, target: RigKind, local: Option<nat>)
    requires local.Some? ==> IsLocal(pools, target, local.value) && !HasReady(pools[local.value])
    requires local.None? ==> forall p: nat :: !IsLocal(pools, target, p)
    ensures !LocalHasReady(pools, target)
  {
    forall p: nat | IsLocal(pools, target, p)
      ensures !HasReady(pools[p])
    {
      assert local.Some? && p == local.value;
    }
  }

  lemma OnlyOneLocal(pools: seq<Pool>, target: RigKind)
    ensures forall p: nat, q: nat :: IsLocal(pools, target, p) && IsLocal(pools, target, q) ==> p == q
  {
  }

  /** If the best pool to borrow from has nothing ready, none has. */
  lemma NoReadyAnywhere(pools: seq<Pool>, target: RigKind, name: string, cycles: seq<Cycle>, best: nat)
    requires IsBestBorrow(pools, target, name, cycles, best) && !HasReady(pools[best])
    ensures forall p: nat :: Borrowable(pools, target, name, cycles, p) ==> !HasReady(pools[p])
  {
    CountPositive(pools[best], pools[best].beads);
    forall p: nat | Borrowable(pools, target, name, cycles, p)
      ensures !HasReady(pools[p])
    {
      CountPositive(pools[p], pools[p].beads);
    }
  }

  // ----- consequences

  ghost predicate OnePoolPerRig(pools: seq<Pool>) {
    forall p, q :: 0 <= p < q < |pools| ==> pools[p].rig != pools[q].rig
  }

  /** With one pool per rig: nothing is selected exactly when neither the own pool nor any pool
      whose same-named polecat is idle or dead has a ready bead. */
  lemma SelectsNothingExactly(before: seq<Pool>, after: seq<Pool>, target: RigKind, name: string, cycles: seq<Cycle>,
                              r: Option<Selected>)
    requires Selects(before, after, target, name, cycles, r) && OnePoolPerRig(before)
    ensures r.None? <==> forall p: nat :: p < |before| && HasReady(before[p]) ==>
      before[p].rig != target && !SourceCanTake(cycles, before[p].rig, name)
  {
    if r.None? {
      forall p: nat | p < |before| && HasReady(before[p])
        ensures before[p].rig != target && !SourceCanTake(cycles, before[p].rig, name)
      {
        assert !Reachable(before, target, name, cycles, p);
      }
    } else {
      var p := r.value.pool;
      HandedOutWasReady(before[p], r.value.bead);
    }
  }

  /** The first entry for `name` in the first cycle of the rig has this status. */
  ghost predicate StatusOf(cycles: seq<Cycle>, rig: RigKind, name: string, status: PolecatStatus) {
    exists c: nat, p: nat ::
      && c < |cycles| && cycles[c].rig == rig && (forall i :: 0 <= i < c ==> cycles[i].rig != rig)
      && p < |cycles[c].fleet| && cycles[c].fleet[p] == name && (forall j :: 0 <= j < p ==> cycles[c].fleet[j] != name)
      && p < |cycles[c].statuses| && cycles[c].statuses[p] == status
  }

  lemma {:induction false} FirstCycleIs(cycles: seq<Cycle>, rig: RigKind)
    ensures var f := FirstCycle(cycles, rig);
      && (f.None? ==> forall i :: 0 <= i < |cycles| ==> cycles[i].rig != rig)
      && (f.Some? ==> exists c: nat ::
            && c < |cycles| && cycles[c] == f.value && cycles[c].rig == rig
            && forall i :: 0 <= i < c ==> cycles[i].rig != rig)
  {
    if cycles != [] && cycles[0].rig != rig {
      FirstCycleIs(cycles[1..], rig);
      if FirstCycle(cycles, rig).Some? {
        var c: nat :| c < |cycles[1..]| && cycles[1..][c] == FirstCycle(cycles, rig).value
                   && forall i :: 0 <= i < c ==> cycles[1..][i].rig != rig;
        forall i | 0 <= i < c + 1
          ensures cycles[i].rig != rig
        {
          assert i > 0 ==> cycles[i] == cycles[1..][i - 1];
        }
        assert cycles[c + 1] == FirstCycle(cycles, rig).value;
      } else {
        forall i | 0 <= i < |cycles|
          ensures cycles[i].rig != rig
        {
          assert i > 0 ==> cycles[i] == cycles[1..][i - 1];
        }
      }
    }
  }

  /** A polecat can be borrowed for if and only if it is dead or idle, never while it works or is unknown. */
  lemma CanTakeExactly(cycles: seq<Cycle>, rig: RigKind, name: string)
    ensures SourceCanTake(cycles, rig, name)
       <==> StatusOf(cycles, rig, name, Dead) || StatusOf(cycles, rig, name, Idle)
  {
    FirstCycleIs(cycles, rig);
    var f := FirstCycle(cycles, rig);
    if f.Some? {
      var c: nat :| c < |cycles| && cycles[c] == f.value && forall i :: 0 <= i < c ==> cycles[i].rig != rig;
      StatusIsAt(cycles, rig, name, c);
    }
  }

  lemma StatusIsAt(cycles: seq<Cycle>, rig: RigKind, name: string, c: nat)
    requires c < |cycles| && cycles[c].rig == rig && forall i :: 0 <= i < c ==> cycles[i].rig != rig
    ensures var at := Position(cycles[c].fleet, name);
      forall status :: StatusOf(cycles, rig, name, status) <==>
        at.Some? && at.value < |cycles[c].statuses| && cycles[c].statuses[at.value] == status
  {
    var at := Position(cycles[c].fleet, name);
    forall status
      ensures StatusOf(cycles, rig, name, status) <==>
        at.Some? && at.value < |cycles[c].statuses| && cycles[c].statuses[at.value] == status
    {
      if at.Some? {
        assert forall j :: 0 <= j < at.value ==> cycles[c].fleet[..at.value][j] == cycles[c].fleet[j];
      }
    }
  }

  /** A bead handed out had no assignee and was not claimed, and every bead before it had or was. */
  lemma HandedOutExactly(pool: Pool, id: string)
    ensures HandsOut(pool, id) <==> exists k: nat :: IsFirstFree(pool, k) && pool.beads[k].id == id
  {
    if HandsOut(pool, id) {
      var k: nat :| IsFirstReady(pool, k) && pool.beads[k].id == id;
      assert IsFirstFree(pool, k);
    }
    if k: nat :| IsFirstFree(pool, k) && pool.beads[k].id == id {
      forall j | 0 <= j < k
        ensures !Ready(pool, pool.beads[j])
      {
        assert !IsFree(pool, j);
      }
      assert IsFirstReady(pool, k);
    }
  }

  ghost predicate IsFirstFree(pool: Pool, k: nat) {
    IsFree(pool, k) && forall j: nat :: j < k ==> !IsFree(pool, j)
  }

  ghost predicate IsFree(pool: Pool, k: nat) {
    k < |pool.beads| && pool.beads[k].assignee == None && pool.beads[k].id !in pool.claimed
  }

  /** The outcome is determined: the same pools never yield two different selections. */
  lemma SelectionIsDetermined(before: seq<Pool>, after: seq<Pool>, after': seq<Pool>, target: RigKind, name: string,
                              cycles: seq<Cycle>, r: Option<Selected>, r': Option<Selected>)
    requires Selects(before, after, target, name, cycles, r) && Selects(before, after', target, name, cycles, r')
    ensures r == r' && after == after'
  {
    if r.Some? && r'.Some? {
      var p, p' := r.value.pool, r'.value.pool;
      assert p == p' by {
        if LocalHasReady(before, target) {
          OnlyOneLocal(before, target);
        }
      }
      HandedOutIsDetermined(before[p], r.value.bead, r'.value.bead);
    } else if r.Some? {
      HandedOutWasReady(before[r.value.pool], r.value.bead);
      assert Reachable(before, target, name, cycles, r.value.pool);
    } else if r'.Some? {
      HandedOutWasReady(before[r'.value.pool], r'.value.bead);
      assert Reachable(before, target, name, cycles, r'.value.pool);
    }
  }

  /** Each success strictly lowers the number of ready beads; nothing else changes it. */
  lemma SelectionLowersTotal(before: seq<Pool>, after: seq<Pool>, target: RigKind, name: string, cycles: seq<Cycle>,
                             r: Option<Selected>)
    requires Selects(before, after, target, name, cycles, r)
    ensures if r.Some? then TotalReady(after) < TotalReady(before) else TotalReady(after) == TotalReady(before)
  {
    if r.Some? {
      var p, bead := r.value.pool, r.value.bead;
      TotalUpdate(before, p, Claim(before[p], bead));
      HandedOutWasReady(before[p], bead);
      ClaimLowers(before[p], bead, before[p].beads);
    }
  }

  // ----- runs

  datatype Call = Call(target: RigKind, name: string, cycles: seq<Cycle>)

  /** `states` are the pools before and after each call. */
  ghost predicate IsRun(states: seq<seq<Pool>>, calls: seq<Call>, results: seq<Option<Selected>>) {
    && |states| == |calls| + 1 && |results| == |calls|
    && forall i :: 0 <= i < |calls| ==> CallSelects(states, calls, results, i)
  }

  ghost predicate CallSelects(states: seq<seq<Pool>>, calls: seq<Call>, results: seq<Option<Selected>>, i: nat)
    requires i < |calls| && |states| == |calls| + 1 && |results| == |calls|
  {
    Selects(states[i], states[i + 1], calls[i].target, calls[i].name, calls[i].cycles, results[i])
  }

  /** Claims are never withdrawn. */
  lemma {:induction false} ClaimsGrow(states: seq<seq<Pool>>, calls: seq<Call>, results: seq<Option<Selected>>,
                                      i: nat, j: nat, p: nat)
    requires IsRun(states, calls, results) && i <= j < |states| && p < |states[i]|
    ensures |states[j]| == |states[i]| && states[i][p].claimed <= states[j][p].claimed
    decreases j
  {
    if i < j {
      ClaimsGrow(states, calls, results, i, j - 1, p);
      assert CallSelects(states, calls, results, j - 1);
    }
  }

  /** Across any run no bead id is handed out twice from one pool. */
  lemma NoBeadTwice(states: seq<seq<Pool>>, calls: seq<Call>, results: seq<Option<Selected>>, i: nat, j: nat)
    requires IsRun(states, calls, results) && i < j < |calls|
    requires results[i].Some? && results[j].Some? && results[i].value.pool == results[j].value.pool
    ensures results[i].value.bead != results[j].value.bead
  {
    assert CallSelects(states, calls, results, i) && CallSelects(states, calls, results, j);
    ClaimsGrow(states, calls, results, i + 1, j, results[i].value.pool);
    HandedOutWasReady(states[j][results[j].value.pool], results[j].value.bead);
  }

  function Successes(results: seq<Option<Selected>>): nat {
    if results == [] then 0
    else Successes(results[..|results| - 1]) + (if results[|results| - 1].Some? then 1 else 0)
  }

  /** A run hands out at most as many beads as were ready at its start. */
  lemma {:induction false} AtMostReady(states: seq<seq<Pool>>, calls: seq<Call>, results: seq<Option<Selected>>, n: nat)
    requires IsRun(states, calls, results) && n <= |calls|
    ensures Successes(results[..n]) + TotalReady(states[n]) <= TotalReady(states[0])
  {
    if n > 0 {
      AtMostReady(states, calls, results, n - 1);
      assert CallSelects(states, calls, results, n - 1);
      var call := calls[n - 1];
      SelectionLowersTotal(states[n - 1], states[n], call.target, call.name, call.cycles, results[n - 1]);
      assert results[..n][..n - 1] == results[..n - 1];
    }
  }
}
