/**
  Bead generation for the least covered modules, `fleet-feed/src/generation.rs`.

  A round picks up to ten modules with the fewest beads, in a stable order, and records one
  more bead for each that could be created. Whether a create succeeds is an oracle. Counts are
  unbounded naturals. References to module names are indices into the scanned list.
 */
module Generation {

  const TARGETS_PER_ROUND: nat := 10

  datatype ModuleMetrics = ModuleMetrics(name: string, beadsCreated: nat, beadsClosed: nat)

  /** The place of the first entry for a module from `from` on, or the end of the list. */
  function Place(ms: seq<ModuleMetrics>, name: string, from: nat): (p: nat)
    requires from <= |ms|
    ensures from <= p <= |ms| && (p < |ms| ==> ms[p].name == name)
    ensures forall i :: from <= i < p ==> ms[i].name != name
    decreases |ms| - from
  {
    if from == |ms| || ms[from].name == name then from else Place(ms, name, from + 1)
  }

  lemma PlaceIs(ms: seq<ModuleMetrics>, name: string, p: nat)
    requires p <= |ms| && (p < |ms| ==> ms[p].name == name)
    requires forall i :: 0 <= i < p ==> ms[i].name != name
    ensures Place(ms, name, 0) == p
  {
  }

  /** The count of the first entry for a module, or 0. */
  function CountOf(ms: seq<ModuleMetrics>, name: string): nat {
    var p := Place(ms, name, 0);
    if p < |ms| then ms[p].beadsCreated else 0
  }

  /** One more bead for a module: its first entry grows, or a new entry is appended. */
  function Recorded(ms: seq<ModuleMetrics>, name: string): seq<ModuleMetrics> {
    var p := Place(ms, name, 0);
    if p < |ms| then ms[p := ms[p].(beadsCreated := ms[p].beadsCreated + 1)]
    else ms + [ModuleMetrics(name, 1, 0)]
  }

  ghost predicate UniqueEntries(ms: seq<ModuleMetrics>) {
    forall i, j :: 0 <= i < j < |ms| ==> ms[i].name != ms[j].name
  }

  ghost predicate Distinct(names: seq<string>) {
    forall i, j :: 0 <= i < j < |names| ==> names[i] != names[j]
  }

  lemma RecordedCounts(ms: seq<ModuleMetrics>, name: string, other: string)
    ensures CountOf(Recorded(ms, name), other) == CountOf(ms, other) + (if other == name then 1 else 0)
  {
    var q := Place(ms, other, 0);
    PlaceIs(Recorded(ms, name), other, if q == |ms| && other != name then |Recorded(ms, name)| else q);
  }

  /** Names and closed counts of the entries stay as they are. */
  lemma RecordedElsewhere(ms: seq<ModuleMetrics>, name: string, i: nat)
    requires i < |ms|
    ensures var r := Recorded(ms, name);
      && i < |r| && r[i].name == ms[i].name && r[i].beadsClosed == ms[i].beadsClosed
      && (ms[i].name != name ==> r[i] == ms[i])
  {
  }

  lemma RecordedUnique(ms: seq<ModuleMetrics>, name: string)
    requires UniqueEntries(ms)
    ensures UniqueEntries(Recorded(ms, name))
  {
  }

  // ----- choosing targets

  datatype Scored = Scored(count: nat, index: nat)

  /** The stable order: fewer beads first, earlier in the scan first among equals. */
  predicate Before(a: Scored, b: Scored) {
    a.count < b.count || (a.count == b.count && a.index < b.index)
  }

  ghost predicate Ordered(s: seq<Scored>) {
    forall i, j :: 0 <= i < j < |s| ==> Before(s[i], s[j])
  }

  /** Insertion behind all entries with the same or a smaller count. */
  function InsertByCount(s: seq<Scored>, x: Scored): (r: seq<Scored>)
    ensures multiset(r) == multiset(s) + multiset{x}
  {
    if s == [] || s[|s| - 1].count <= x.count then s + [x]
    else
      assert s == s[..|s| - 1] + [s[|s| - 1]];
      InsertByCount(s[..|s| - 1], x) + [s[|s| - 1]]
  }

  /** `sort_by_key` on the count: a stable sort. */
  function SortByCount(s: seq<Scored>): (r: seq<Scored>)
    ensures multiset(r) == multiset(s)
  {
    if s == [] then []
    else
      assert s == s[..|s| - 1] + [s[|s| - 1]];
      InsertByCount(SortByCount(s[..|s| - 1]), s[|s| - 1])
  }

  lemma {:induction false} InsertKeepsOrder(s: seq<Scored>, x: Scored)
    requires Ordered(s) && forall i :: 0 <= i < |s| ==> s[i].index < x.index
    ensures Ordered(InsertByCount(s, x))
  {
    if s != [] && s[|s| - 1].count > x.count {
      var front, last := s[..|s| - 1], s[|s| - 1];
      InsertKeepsOrder(front, x);
      var r := InsertByCount(front, x);
      forall i | 0 <= i < |r|
        ensures Before(r[i], last)
      {
        OldOrNew(r, front, x, i);
      }
    }
  }

  lemma OldOrNew<T>(r: seq<T>, front: seq<T>, x: T, i: nat)
    requires multiset(r) == multiset(front) + multiset{x} && i < |r|
    ensures r[i] == x || r[i] in front
  {
    assert r[i] in multiset(r);
  }

  /** Sorting by count alone yields the order by count and position, which only a stable sort does. */
  lemma {:induction false} SortIsStable(s: seq<Scored>)
    requires forall i, j :: 0 <= i < j < |s| ==> s[i].index < s[j].index
    ensures Ordered(SortByCount(s))
  {
    if s != [] {
      var front, last := s[..|s| - 1], s[|s| - 1];
      SortIsStable(front);
      var r := SortByCount(front);
      forall i | 0 <= i < |r|
        ensures r[i].index < last.index
      {
        assert r[i] in multiset(r);
        assert r[i] in front;
      }
      InsertKeepsOrder(r, last);
    }
  }

  function Scores(modules: seq<string>, ms: seq<ModuleMetrics>): (s: seq<Scored>)
    ensures |s| == |modules|
    ensures forall i :: 0 <= i < |s| ==> s[i] == Scored(CountOf(ms, modules[i]), i)
  {
    seq(|modules|, i requires 0 <= i < |modules| => Scored(CountOf(ms, modules[i]), i))
  }

  /** The positions of the chosen modules, in order. */
  function Chosen(modules: seq<string>, ms: seq<ModuleMetrics>, count: nat): seq<Scored> {
    var sorted := SortByCount(Scores(modules, ms));
    if count < |sorted| then sorted[..count] else sorted
  }

  ghost predicate IsPosition(modules: seq<string>, i: int) {
    0 <= i < |modules|
  }

  /**
    The choice is exactly the first `count` positions in the stable order: the chosen ones come
    in that order, and every position not chosen comes after every chosen one.
   */
  lemma ChosenAreLeast(modules: seq<string>, ms: seq<ModuleMetrics>, count: nat)
    ensures var c := Chosen(modules, ms, count);
      && |c| == (if count < |modules| then count else |modules|)
      && Ordered(c)
      && (forall k :: 0 <= k < |c| ==> c[k].index < |modules| && c[k] == Scores(modules, ms)[c[k].index])
      && (forall i :: IsPosition(modules, i) && Scores(modules, ms)[i] !in c ==>
            forall k :: 0 <= k < |c| ==> Before(c[k], Scores(modules, ms)[i]))
  {
    var s := Scores(modules, ms);
    var sorted, c := SortByCount(s), Chosen(modules, ms, count);
    SortIsStable(s);
    SameSize(sorted, s);
    forall k | 0 <= k < |c|
      ensures c[k].index < |modules| && c[k] == s[c[k].index]
    {
      assert c[k] == sorted[k];
      var _ := SamePlaces(sorted, s, k);
    }
    forall i | IsPosition(modules, i) && s[i] !in c
      ensures forall k :: 0 <= k < |c| ==> Before(c[k], s[i])
    {
      var at := SamePlaces(s, sorted, i);
      InPrefix(sorted, c, at);
    }
  }

  /** Every element of a sequence has a place in each of its permutations. */
  lemma SamePlaces<T>(a: seq<T>, b: seq<T>, i: nat) returns (at: nat)
    requires multiset(a) == multiset(b) && i < |a|
    ensures at < |b| && b[at] == a[i]
  {
    assert a[i] in multiset(a);
    assert a[i] in b;
    at :| at < |b| && b[at] == a[i];
  }

  lemma InPrefix<T>(whole: seq<T>, prefix: seq<T>, at: nat)
    requires prefix <= whole && at < |whole|
    ensures at < |prefix| ==> whole[at] in prefix
  {
    if at < |prefix| {
      assert whole[at] == prefix[at];
    }
  }

  lemma SameSize<T>(a: seq<T>, b: seq<T>)
    requires multiset(a) == multiset(b)
    ensures |a| == |b|
  {
    assert |multiset(a)| == |a| && |multiset(b)| == |b|;
  }

  // ----- the code

  class FleetMetrics {
    var modules: seq<ModuleMetrics>

    constructor ()
      ensures modules == []
    {
      modules := [];
    }

    /** `record_created_metric`. */
    method RecordCreated(name: string)
      modifies this
      ensures modules == Recorded(old(modules), name)
    {
      var i := 0;
      while i < |modules| && modules[i].name != name
        invariant 0 <= i <= |modules|
        invariant forall j :: 0 <= j < i ==> modules[j].name != name
      {
        i := i + 1;
      }
      PlaceIs(modules, name, i);
      if i < |modules| {
        modules := modules[i := modules[i].(beadsCreated := modules[i].beadsCreated + 1)];
      } else {
        modules := modules + [ModuleMetrics(name, 1, 0)];
      }
    }

    /** `select_target_modules`. */
    method SelectTargets(scanned: seq<string>, count: nat) returns (targets: seq<string>)
      ensures targets == Targets(scanned, modules, count)
    {
      var scored: seq<Scored> := [];
      for i := 0 to |scanned|
        invariant scored == Scores(scanned, modules)[..i]
      {
        var j := 0;
        while j < |modules| && modules[j].name != scanned[i]
          invariant 0 <= j <= |modules|
          invariant forall k :: 0 <= k < j ==> modules[k].name != scanned[i]
        {
          j := j + 1;
        }
        PlaceIs(modules, scanned[i], j);
        var beads := if j < |modules| then modules[j].beadsCreated else 0;
        scored := scored + [Scored(beads, i)];
      }
      assert scored == Scores(scanned, modules);
      ChosenAreLeast(scanned, modules, count);
      var sorted := SortByCount(scored);
      var chosen := if count < |sorted| then sorted[..count] else sorted;
      targets := seq(|chosen|, k requires 0 <= k < |chosen| => scanned[chosen[k].index]);
    }

    /** The loop of `generate_beads` over the chosen modules; `creates(i)` is the i-th create's success. */
    method GenerateBeads(scanned: seq<string>, creates: nat -> bool) returns (created: nat)
      modifies this
      ensures modules == RecordedAll(old(modules), Created(Targets(scanned, old(modules), TARGETS_PER_ROUND), creates))
      ensures created == |Created(Targets(scanned, old(modules), TARGETS_PER_ROUND), creates)|
      ensures |Targets(scanned, old(modules), TARGETS_PER_ROUND)| == (if |scanned| < 10 then |scanned| else 10)
      ensures AllSucceed(creates, |Targets(scanned, old(modules), TARGETS_PER_ROUND)|) ==>
        modules == Round(scanned, old(modules))
    {
      var targets := SelectTargets(scanned, TARGETS_PER_ROUND);
      created := 0;
      for i := 0 to |targets|
        invariant modules == RecordedAll(old(modules), Created(targets[..i], creates))
        invariant created == |Created(targets[..i], creates)|
      {
        CreatedNext(targets, i, creates);
        if creates(i) {
          created := created + 1;
          RecordedAllSnoc(old(modules), Created(targets[..i], creates), targets[i]);
          RecordCreated(targets[i]);
        }
      }
      assert targets[..|targets|] == targets;
      if AllSucceed(creates, |targets|) {
        AllCreated(targets, creates);
      }
    }
  }

  function Targets(scanned: seq<string>, ms: seq<ModuleMetrics>, count: nat): (t: seq<string>)
    ensures |t| == (if count < |scanned| then count else |scanned|)
  {
    ChosenAreLeast(scanned, ms, count);
    var c := Chosen(scanned, ms, count);
    seq(|c|, k requires 0 <= k < |c| => scanned[c[k].index])
  }

  ghost predicate AllSucceed(creates: nat -> bool, n: nat) {
    forall i: nat :: i < n ==> creates(i)
  }

  /** The targets whose create succeeds. */
  function Created(targets: seq<string>, creates: nat -> bool): seq<string> {
    if |targets| == 0 then []
    else
      var front, last := targets[..|targets| - 1], |targets| - 1;
      if creates(last) then Created(front, creates) + [targets[last]] else Created(front, creates)
  }

  lemma CreatedNext(targets: seq<string>, i: nat, creates: nat -> bool)
    requires i < |targets|
    ensures Created(targets[..i + 1], creates)
         == if creates(i) then Created(targets[..i], creates) + [targets[i]] else Created(targets[..i], creates)
  {
    assert targets[..i + 1][..i] == targets[..i];
  }

  /** A target is created if and only if its own create succeeds, whatever happens to the others. */
  lemma {:induction false} CreatedExactly(targets: seq<string>, creates: nat -> bool)
    requires Distinct(targets)
    ensures Distinct(Created(targets, creates))
    ensures forall i :: 0 <= i < |targets| ==> (targets[i] in Created(targets, creates) <==> creates(i))
    ensures forall x :: x in Created(targets, creates) ==> x in targets
  {
    if |targets| > 0 {
      var front, last := targets[..|targets| - 1], targets[|targets| - 1];
      CreatedExactly(front, creates);
      assert targets == front + [last];
      assert last !in Created(front, creates) by {
        assert last !in front;
      }
    }
  }

  function RecordedAll(ms: seq<ModuleMetrics>, names: seq<string>): seq<ModuleMetrics> {
    if names == [] then ms else Recorded(RecordedAll(ms, names[..|names| - 1]), names[|names| - 1])
  }

  lemma RecordedAllSnoc(ms: seq<ModuleMetrics>, names: seq<string>, name: string)
    ensures RecordedAll(ms, names + [name]) == Recorded(RecordedAll(ms, names), name)
  {
    assert (names + [name])[..|names|] == names;
  }

  // ----- rounds in which every create succeeds

  function Round(scanned: seq<string>, ms: seq<ModuleMetrics>): seq<ModuleMetrics> {
    RecordedAll(ms, Targets(scanned, ms, TARGETS_PER_ROUND))
  }

  function Rounds(scanned: seq<string>, ms: seq<ModuleMetrics>, r: nat): seq<ModuleMetrics> {
    if r == 0 then ms else Round(scanned, Rounds(scanned, ms, r - 1))
  }

  lemma {:induction false} AllCreated(targets: seq<string>, creates: nat -> bool)
    requires AllSucceed(creates, |targets|)
    ensures Created(targets, creates) == targets
  {
    if |targets| > 0 {
      var front, last := targets[..|targets| - 1], targets[|targets| - 1];
      AllCreated(front, creates);
      assert Created(targets, creates) == Created(front, creates) + [last];
      assert targets == front + [last];
    }
  }

  lemma {:induction false} RecordedAllCounts(ms: seq<ModuleMetrics>, names: seq<string>, other: string)
    requires Distinct(names)
    ensures CountOf(RecordedAll(ms, names), other) == CountOf(ms, other) + (if other in names then 1 else 0)
  {
    if names != [] {
      var front, last := names[..|names| - 1], names[|names| - 1];
      RecordedAllCounts(ms, front, other);
      RecordedCounts(RecordedAll(ms, front), last, other);
      assert names == front + [last];
      assert last !in front;
    }
  }

  lemma {:induction false} RecordedAllUnique(ms: seq<ModuleMetrics>, names: seq<string>)
    requires UniqueEntries(ms)
    ensures UniqueEntries(RecordedAll(ms, names))
  {
    if names != [] {
      RecordedAllUnique(ms, names[..|names| - 1]);
      RecordedUnique(RecordedAll(ms, names[..|names| - 1]), names[|names| - 1]);
    }
  }

  /** Targets are distinct, and no module left out has fewer beads than a target. */
  lemma TargetsAreLeast(scanned: seq<string>, ms: seq<ModuleMetrics>, count: nat)
    requires Distinct(scanned)
    ensures Distinct(Targets(scanned, ms, count))
    ensures var t := Targets(scanned, ms, count);
            forall i, k :: 0 <= i < |scanned| && scanned[i] !in t && 0 <= k < |t| ==>
              CountOf(ms, t[k]) <= CountOf(ms, scanned[i])
    ensures var t := Targets(scanned, ms, count); forall k :: 0 <= k < |t| ==> t[k] in scanned
  {
    ChosenAreLeast(scanned, ms, count);
    var c, t := Chosen(scanned, ms, count), Targets(scanned, ms, count);
    forall j, k | 0 <= j < k < |t|
      ensures t[j] != t[k]
    {
      assert Before(c[j], c[k]);
      assert c[j].index != c[k].index;
    }
    forall i, k | 0 <= i < |scanned| && scanned[i] !in t && 0 <= k < |t|
      ensures CountOf(ms, t[k]) <= CountOf(ms, scanned[i])
    {
      forall at | 0 <= at < |c|
        ensures c[at] != Scores(scanned, ms)[i]
      {
        assert t[at] in t && t[at] == scanned[c[at].index];
      }
      assert IsPosition(scanned, i);
      assert Before(c[k], Scores(scanned, ms)[i]);
    }
  }

  /** The targets come in the order of their counts, those with equal counts in scan order, and
      every other scanned position comes after all of them. */
  lemma TargetsInOrder(scanned: seq<string>, ms: seq<ModuleMetrics>, count: nat) returns (at: seq<nat>)
    ensures var t := Targets(scanned, ms, count);
      && |at| == |t|
      && (forall k :: 0 <= k < |t| ==> at[k] < |scanned| && t[k] == scanned[at[k]])
      && (forall j, k :: 0 <= j < k < |t| ==> Earlier(scanned, ms, at[j], at[k]))
      && (forall i, k :: 0 <= i < |scanned| && i !in at && 0 <= k < |t| ==> Earlier(scanned, ms, at[k], i))
  {
    var c := Chosen(scanned, ms, count);
    ChosenAreLeast(scanned, ms, count);
    at := seq(|c|, k requires 0 <= k < |c| => c[k].index);
    forall j, k | 0 <= j < k < |c|
      ensures Earlier(scanned, ms, at[j], at[k])
    {
      assert Before(c[j], c[k]);
    }
    forall i, k | 0 <= i < |scanned| && i !in at && 0 <= k < |c|
      ensures Earlier(scanned, ms, at[k], i)
    {
      forall j | 0 <= j < |c|
        ensures c[j] != Scores(scanned, ms)[i]
      {
        assert at[j] in at;
      }
      assert IsPosition(scanned, i) && Before(c[k], Scores(scanned, ms)[i]);
    }
  }

  /** Fewer beads first, then scan order. */
  ghost predicate Earlier(scanned: seq<string>, ms: seq<ModuleMetrics>, i: nat, j: nat) {
    && i < |scanned| && j < |scanned|
    && (CountOf(ms, scanned[i]) < CountOf(ms, scanned[j])
        || (CountOf(ms, scanned[i]) == CountOf(ms, scanned[j]) && i < j))
  }

  /** The counts of the scanned modules, in scan order. */
  function Counts(scanned: seq<string>, ms: seq<ModuleMetrics>): (c: seq<nat>)
    ensures |c| == |scanned|
    ensures forall i :: 0 <= i < |c| ==> c[i] == CountOf(ms, scanned[i])
  {
    seq(|scanned|, i requires 0 <= i < |scanned| => CountOf(ms, scanned[i]))
  }

  ghost predicate Balanced(c: seq<nat>) {
    forall i, j :: 0 <= i < |c| && 0 <= j < |c| ==> c[i] <= c[j] + 1
  }

  function Sum(c: seq<nat>): nat {
    if c == [] then 0 else Sum(c[..|c| - 1]) + c[|c| - 1]
  }

  /** A round leaves counts that differ by at most one within one of each other. */
  lemma RoundKeepsBalance(scanned: seq<string>, ms: seq<ModuleMetrics>)
    requires Distinct(scanned) && Balanced(Counts(scanned, ms))
    ensures Balanced(Counts(scanned, Round(scanned, ms)))
  {
    var t := Targets(scanned, ms, TARGETS_PER_ROUND);
    var c, c' := Counts(scanned, ms), Counts(scanned, Round(scanned, ms));
    TargetsAreLeast(scanned, ms, TARGETS_PER_ROUND);
    forall i, j | 0 <= i < |c'| && 0 <= j < |c'|
      ensures c'[i] <= c'[j] + 1
    {
      RecordedAllCounts(ms, t, scanned[i]);
      RecordedAllCounts(ms, t, scanned[j]);
      assert c[i] <= c[j] + 1;
      if scanned[i] in t && scanned[j] !in t {
        var k :| 0 <= k < |t| && t[k] == scanned[i];
        assert CountOf(ms, t[k]) <= CountOf(ms, scanned[j]);
      }
    }
  }

  /** Recording one bead for a scanned module raises the total by one; any other changes nothing. */
  lemma {:induction false} SumRecorded(scanned: seq<string>, ms: seq<ModuleMetrics>, name: string)
    requires Distinct(scanned)
    ensures Sum(Counts(scanned, Recorded(ms, name))) == Sum(Counts(scanned, ms)) + (if name in scanned then 1 else 0)
  {
    if |scanned| > 0 {
      var front, last := scanned[..|scanned| - 1], scanned[|scanned| - 1];
      SumRecorded(front, ms, name);
      SumSplit(scanned, ms);
      SumSplit(scanned, Recorded(ms, name));
      RecordedCounts(ms, name, last);
      InFront(scanned, name);
    }
  }

  lemma SumSplit(scanned: seq<string>, ms: seq<ModuleMetrics>)
    requires |scanned| > 0
    ensures Sum(Counts(scanned, ms))
         == Sum(Counts(scanned[..|scanned| - 1], ms)) + CountOf(ms, scanned[|scanned| - 1])
  {
    assert Counts(scanned, ms)[..|scanned| - 1] == Counts(scanned[..|scanned| - 1], ms);
  }

  lemma InFront(scanned: seq<string>, name: string)
    requires |scanned| > 0 && Distinct(scanned)
    ensures var front, last := scanned[..|scanned| - 1], scanned[|scanned| - 1];
      (name in scanned <==> name in front || name == last) && !(name in front && name == last)
  {
    assert scanned == scanned[..|scanned| - 1] + [scanned[|scanned| - 1]];
  }

  /** The total grows by the number of beads created. */
  lemma {:induction false} SumRecordedAll(scanned: seq<string>, ms: seq<ModuleMetrics>, names: seq<string>)
    requires Distinct(scanned) && forall k :: 0 <= k < |names| ==> names[k] in scanned
    ensures Sum(Counts(scanned, RecordedAll(ms, names))) == Sum(Counts(scanned, ms)) + |names|
  {
    if names != [] {
      SumRecordedAll(scanned, ms, names[..|names| - 1]);
      SumRecorded(scanned, RecordedAll(ms, names[..|names| - 1]), names[|names| - 1]);
    }
  }

  function PerRound(n: nat): nat {
    if TARGETS_PER_ROUND < n then TARGETS_PER_ROUND else n
  }

  /** Unique entries, counts within one of each other, and a given total. */
  ghost predicate Even(scanned: seq<string>, ms: seq<ModuleMetrics>, total: nat) {
    UniqueEntries(ms) && Balanced(Counts(scanned, ms)) && Sum(Counts(scanned, ms)) == total
  }

  lemma RoundKeepsEven(scanned: seq<string>, ms: seq<ModuleMetrics>, total: nat)
    requires Distinct(scanned) && Even(scanned, ms, total)
    ensures Even(scanned, Round(scanned, ms), total + PerRound(|scanned|))
  {
    var t := Targets(scanned, ms, TARGETS_PER_ROUND);
    TargetsAreLeast(scanned, ms, TARGETS_PER_ROUND);
    RoundKeepsBalance(scanned, ms);
    RecordedAllUnique(ms, t);
    SumRecordedAll(scanned, ms, t);
  }

  function TotalAfter(total: nat, p: nat, r: nat): nat {
    if r == 0 then total else TotalAfter(total, p, r - 1) + p
  }

  lemma {:induction false} TotalAfterIs(total: nat, p: nat, r: nat)
    ensures TotalAfter(total, p, r) == total + r * p
  {
    if r > 0 {
      TotalAfterIs(total, p, r - 1);
    }
  }

  /** Any number of rounds keeps entries unique and counts balanced, and raises the total by
      min(10, n) a round. */
  lemma {:induction false} RoundsKeepEven(scanned: seq<string>, ms: seq<ModuleMetrics>, total: nat, r: nat)
    requires Distinct(scanned) && Even(scanned, ms, total)
    ensures Even(scanned, Rounds(scanned, ms, r), TotalAfter(total, PerRound(|scanned|), r))
    decreases r
  {
    if r > 0 {
      RoundsKeepEven(scanned, ms, total, r - 1);
      RoundKeepsEven(scanned, Rounds(scanned, ms, r - 1), TotalAfter(total, PerRound(|scanned|), r - 1));
    }
  }

  lemma {:induction false} SumAtMost(c: seq<nat>, bound: nat)
    requires forall i :: 0 <= i < |c| ==> c[i] <= bound
    ensures Sum(c) <= |c| * bound
    ensures (exists i :: 0 <= i < |c| && c[i] < bound) ==> Sum(c) < |c| * bound
  {
    if c != [] {
      SumAtMost(c[..|c| - 1], bound);
      assert |c| * bound == (|c| - 1) * bound + bound;
      if i :| 0 <= i < |c| && c[i] < bound {
        assert i < |c| - 1 ==> c[..|c| - 1][i] < bound;
      }
    }
  }

  lemma {:induction false} SumAtLeast(c: seq<nat>, bound: nat)
    requires forall i :: 0 <= i < |c| ==> c[i] >= bound
    ensures Sum(c) >= |c| * bound
    ensures (exists i :: 0 <= i < |c| && c[i] > bound) ==> Sum(c) > |c| * bound
  {
    if c != [] {
      SumAtLeast(c[..|c| - 1], bound);
      assert |c| * bound == (|c| - 1) * bound + bound;
      if i :| 0 <= i < |c| && c[i] > bound {
        assert i < |c| - 1 ==> c[..|c| - 1][i] > bound;
      }
    }
  }

  lemma NotBelowMean(c: seq<nat>, i: nat, q: nat)
    requires i < |c| && Balanced(c) && |c| * q <= Sum(c)
    ensures c[i] >= q
  {
    if c[i] < q {
      forall j | 0 <= j < |c|
        ensures c[j] <= q
      {
        assert c[j] <= c[i] + 1;
      }
      SumAtMost(c, q);
    }
  }

  lemma NotAboveMean(c: seq<nat>, i: nat, q: nat)
    requires i < |c| && Balanced(c) && Sum(c) <= |c| * q
    ensures c[i] <= q
  {
    if c[i] > q {
      forall j | 0 <= j < |c|
        ensures c[j] >= q
      {
        assert c[i] <= c[j] + 1;
      }
      SumAtLeast(c, q);
    }
  }

  /** Balanced counts are the floor or the ceiling of their mean. */
  lemma BalancedIsFloorOrCeiling(c: seq<nat>, i: nat, q: nat, rest: nat)
    requires i < |c| && Balanced(c) && Sum(c) == |c| * q + rest && rest < |c|
    ensures c[i] == q || (c[i] == q + 1 && rest != 0)
  {
    NotBelowMean(c, i, q);
    if rest == 0 {
      NotAboveMean(c, i, q);
    } else {
      NextMultiple(|c|, q);
      NotAboveMean(c, i, q + 1);
    }
  }

  lemma NextMultiple(n: nat, q: nat)
    ensures n * (q + 1) == n * q + n
  {
  }

  lemma EvenCount(scanned: seq<string>, ms: seq<ModuleMetrics>, total: nat, i: nat, q: nat, rest: nat)
    requires Even(scanned, ms, total) && i < |scanned| && total == |scanned| * q + rest && rest < |scanned|
    ensures CountOf(ms, scanned[i]) == q || (CountOf(ms, scanned[i]) == q + 1 && rest != 0)
  {
    BalancedIsFloorOrCeiling(Counts(scanned, ms), i, q, rest);
  }

  lemma EmptyIsEven(scanned: seq<string>)
    ensures Even(scanned, [], 0)
  {
    ZeroSum(Counts(scanned, []));
  }

  lemma EvenAfterRounds(scanned: seq<string>, r: nat, total: nat)
    requires Distinct(scanned) && total == r * PerRound(|scanned|)
    ensures Even(scanned, Rounds(scanned, [], r), total)
  {
    EmptyIsEven(scanned);
    RoundsKeepEven(scanned, [], 0, r);
    TotalAfterIs(0, PerRound(|scanned|), r);
  }

  /** From empty metrics, after `r` rounds each of `n` modules has the floor or the ceiling of
      r * min(10, n) / n beads. */
  lemma EvenCoverage(scanned: seq<string>, r: nat, i: nat, total: nat)
    requires Distinct(scanned) && i < |scanned| && total == r * PerRound(|scanned|)
    ensures FloorOrCeiling(CountOf(Rounds(scanned, [], r), scanned[i]), total, |scanned|)
  {
    EvenAfterRounds(scanned, r, total);
    EvenIsFloorOrCeiling(scanned, Rounds(scanned, [], r), total, i);
  }

  predicate FloorOrCeiling(count: nat, total: nat, n: nat)
    requires n > 0
  {
    count == total / n || (count == total / n + 1 && total % n != 0)
  }

  lemma EvenIsFloorOrCeiling(scanned: seq<string>, ms: seq<ModuleMetrics>, total: nat, i: nat)
    requires Even(scanned, ms, total) && i < |scanned|
    ensures FloorOrCeiling(CountOf(ms, scanned[i]), total, |scanned|)
  {
    DivisionTheorem(total, |scanned|);
    EvenCount(scanned, ms, total, i, total / |scanned|, total % |scanned|);
  }

  lemma DivisionTheorem(s: nat, n: nat)
    requires n > 0
    ensures s == n * (s / n) + s % n && s % n < n
  {
  }

  lemma {:induction false} ZeroSum(c: seq<nat>)
    requires forall i :: 0 <= i < |c| ==> c[i] == 0
    ensures Sum(c) == 0
  {
    if c != [] {
      ZeroSum(c[..|c| - 1]);
    }
  }
}
