/**
  The load-shedding semaphore, `crates/vo-core/src/shedding.rs`, as a step system.

  The semaphore and the `acquired` counter are two shared cells without a common lock. An
  acquire first takes permits from the semaphore and then adds to the counter; dropping a
  permit first subtracts from the counter and then gives the permits back. Each half is one
  atomic step, and steps of any number of callers interleave freely. The request is truncated
  to 32 bits for the semaphore but not for the counter, which wraps at 64 bits.
 */
module Shedding {

  const U32: nat := 0x1_0000_0000
  const USIZE: nat := 0x1_0000_0000_0000_0000
  const MAX_CONCURRENT_BINARIES: nat := 500
  const MAX_YIELDED_ACTORS: nat := 5_000

  /** The life of one granted request. */
  datatype Phase = Taken | Held | Uncounted | Returned
  datatype Permit = Permit(permits: nat, phase: Phase)

  /** `permits` lists every request ever granted; its indices name the holders. */
  datatype State = State(max: nat, available: nat, acquired: nat, permits: seq<Permit>)

  datatype Step =
    | Take(request: nat)   // try_acquire_many_owned(permits as u32) succeeds
    | Count(who: nat)      // fetch_add(permits)
    | Uncount(who: nat)    // Drop: fetch_sub(permits)
    | Return(who: nat)     // the inner permit is dropped

  function Init(max: nat): State {
    State(max, max, 0, [])
  }

  predicate InPhase(s: State, who: nat, phase: Phase) {
    who < |s.permits| && s.permits[who].phase == phase
  }

  /** A request is granted when its low 32 bits are available; otherwise it changes nothing. */
  predicate Enabled(s: State, step: Step) {
    match step
    case Take(request) => request < USIZE && request % U32 <= s.available
    case Count(who) => InPhase(s, who, Taken)
    case Uncount(who) => InPhase(s, who, Held)
    case Return(who) => InPhase(s, who, Uncounted)
  }

  function SetPhase(ps: seq<Permit>, who: nat, phase: Phase): seq<Permit>
    requires who < |ps|
  {
    ps[who := ps[who].(phase := phase)]
  }

  function Next(s: State, step: Step): State
    requires Enabled(s, step)
  {
    match step
    case Take(request) =>
      s.(available := s.available - request % U32, permits := s.permits + [Permit(request, Taken)])
    case Count(who) =>
      s.(acquired := (s.acquired + s.permits[who].permits) % USIZE,
         permits := SetPhase(s.permits, who, Held))
    case Uncount(who) =>
      s.(acquired := (s.acquired - s.permits[who].permits) % USIZE,
         permits := SetPhase(s.permits, who, Uncounted))
    case Return(who) =>
      s.(available := s.available + s.permits[who].permits % U32,
         permits := SetPhase(s.permits, who, Returned))
  }

  predicate IsRun(s: State, steps: seq<Step>)
    decreases |steps|
  {
    steps == [] || (Enabled(s, steps[0]) && IsRun(Next(s, steps[0]), steps[1..]))
  }

  function After(s: State, steps: seq<Step>): State
    requires IsRun(s, steps)
    decreases |steps|
  {
    if steps == [] then s else After(Next(s, steps[0]), steps[1..])
  }

  // ----- what every state of every run satisfies

  /** Permits a granted request keeps from the semaphore. */
  function Outstanding(p: Permit): nat {
    if p.phase == Returned then 0 else p.permits % U32
  }

  /** Permits a granted request contributes to the counter. */
  function Counted(p: Permit): nat {
    if p.phase == Held then p.permits else 0
  }

  function Sum(ps: seq<Permit>, weight: Permit -> nat): nat {
    if ps == [] then 0 else Sum(ps[..|ps| - 1], weight) + weight(ps[|ps| - 1])
  }

  lemma {:induction false} SumUpdate(ps: seq<Permit>, weight: Permit -> nat, who: nat, p: Permit)
    requires who < |ps|
    ensures Sum(ps[who := p], weight) == Sum(ps, weight) - weight(ps[who]) + weight(p)
  {
    var front := ps[..|ps| - 1];
    if who == |ps| - 1 {
      assert ps[who := p][..|ps| - 1] == front;
    } else {
      assert ps[who := p][..|ps| - 1] == front[who := p];
      SumUpdate(front, weight, who, p);
    }
  }

  /** If every request fits 32 bits the counter's share is at most the semaphore's. */
  lemma {:induction false} CountedAtMostOutstanding(ps: seq<Permit>)
    requires forall i :: 0 <= i < |ps| ==> ps[i].permits < U32
    ensures Sum(ps, Counted) <= Sum(ps, Outstanding)
    ensures (forall i :: 0 <= i < |ps| ==> ps[i].phase == Held || ps[i].phase == Returned)
         ==> Sum(ps, Counted) == Sum(ps, Outstanding)
  {
    if ps != [] {
      CountedAtMostOutstanding(ps[..|ps| - 1]);
    }
  }

  /** Conservation, for requests of any size: true of every state of every run. */
  ghost predicate Conserved(s: State) {
    && s.available + Sum(s.permits, Outstanding) == s.max
    && s.acquired == Sum(s.permits, Counted) % USIZE
  }

  lemma StepKeepsPermits(s: State, step: Step)
    requires s.available + Sum(s.permits, Outstanding) == s.max && Enabled(s, step)
    ensures var t := Next(s, step); t.available + Sum(t.permits, Outstanding) == t.max
  {
    if step.Take? {
      assert (s.permits + [Permit(step.request, Taken)])[..|s.permits|] == s.permits;
    } else {
      var t := Next(s, step);
      SumUpdate(s.permits, Outstanding, step.who, t.permits[step.who]);
    }
  }

  lemma WrapAfterWrap(a: int, b: int)
    ensures (a % USIZE + b) % USIZE == (a + b) % USIZE
  {
    var q := a / USIZE;
    assert a + b == (a % USIZE + b) + USIZE * q;
    WrapIgnoresMultiples(a % USIZE + b, q);
  }

  lemma WrapIgnoresMultiples(x: int, q: int)
    ensures (x + USIZE * q) % USIZE == x % USIZE
  {
    assert (x + USIZE * q) / USIZE == x / USIZE + q;
  }

  /** What a step adds to the counted permits. */
  function Change(s: State, step: Step): int
    requires Enabled(s, step)
  {
    match step
    case Count(who) => s.permits[who].permits
    case Uncount(who) => 0 - s.permits[who].permits as int
    case _ => 0
  }

  lemma StepChangesCounted(s: State, step: Step)
    requires Enabled(s, step)
    ensures Sum(Next(s, step).permits, Counted) == Sum(s.permits, Counted) + Change(s, step)
  {
    if step.Take? {
      assert (s.permits + [Permit(step.request, Taken)])[..|s.permits|] == s.permits;
    } else {
      SumUpdate(s.permits, Counted, step.who, Next(s, step).permits[step.who]);
    }
  }

  lemma StepKeepsCount(s: State, step: Step)
    requires s.acquired == Sum(s.permits, Counted) % USIZE && Enabled(s, step)
    ensures var t := Next(s, step); t.acquired == Sum(t.permits, Counted) % USIZE
  {
    StepChangesCounted(s, step);
    WrapAfterWrap(Sum(s.permits, Counted), Change(s, step));
  }

  lemma StepConserves(s: State, step: Step)
    requires Conserved(s) && Enabled(s, step)
    ensures Conserved(Next(s, step)) && Next(s, step).max == s.max
  {
    StepKeepsPermits(s, step);
    StepKeepsCount(s, step);
  }

  lemma RunOfOne(s: State, a: Step)
    requires Enabled(s, a)
    ensures IsRun(s, [a]) && After(s, [a]) == Next(s, a)
  {
    var steps := [a];
    assert steps[0] == a && steps[1..] == [];
    assert IsRun(Next(s, a), steps[1..]) && After(Next(s, a), steps[1..]) == Next(s, a);
  }

  lemma RunOfTwo(s: State, a: Step, b: Step)
    requires Enabled(s, a) && Enabled(Next(s, a), b)
    ensures IsRun(s, [a, b]) && After(s, [a, b]) == Next(Next(s, a), b)
  {
    var steps := [a, b];
    assert steps[0] == a && steps[1..] == [b];
    RunOfOne(Next(s, a), b);
  }

  // ----- the law of the counter

  ghost predicate Quiescent(s: State) {
    forall i :: 0 <= i < |s.permits| ==> s.permits[i].phase == Held || s.permits[i].phase == Returned
  }

  /** The counter never runs ahead of the semaphore, and agrees with it between operations. */
  ghost predicate Law(s: State) {
    && s.acquired + s.available <= s.max
    && (Quiescent(s) ==> s.acquired + s.available == s.max)
  }

  predicate Fits32(n: nat) {
    n < U32
  }

  /** Request sizes that cannot break the law: they fit 32 bits, or are always refused. */
  predicate Harmless(request: nat, max: nat) {
    request < U32 || request % U32 > max
  }

  ghost predicate Requests(steps: seq<Step>, allowed: iset<nat>) {
    forall i :: 0 <= i < |steps| && steps[i].Take? ==> steps[i].request in allowed
  }

  ghost predicate SmallPermits(s: State) {
    forall i :: 0 <= i < |s.permits| ==> s.permits[i].permits < U32
  }

  lemma LaterRequests(steps: seq<Step>, allowed: iset<nat>)
    requires |steps| > 0 && Requests(steps, allowed)
    ensures Requests(steps[1..], allowed)
  {
    assert forall i :: 0 <= i < |steps[1..]| ==> steps[1..][i] == steps[i + 1];
  }

  lemma StepKeepsSmall(s: State, step: Step)
    requires s.available <= s.max && SmallPermits(s) && Enabled(s, step)
    requires step.Take? ==> Harmless(step.request, s.max)
    ensures SmallPermits(Next(s, step))
  {
  }

  lemma {:induction false} RunKeepsLaw(s: State, steps: seq<Step>, allowed: iset<nat>)
    requires Conserved(s) && SmallPermits(s) && s.max < USIZE
    requires IsRun(s, steps) && Requests(steps, allowed)
    requires forall n :: n in allowed ==> Harmless(n, s.max)
    ensures Conserved(After(s, steps)) && SmallPermits(After(s, steps)) && Law(After(s, steps))
    ensures After(s, steps).max == s.max
    decreases |steps|
  {
    if steps == [] {
      CountedAtMostOutstanding(s.permits);
    } else {
      StepConserves(s, steps[0]);
      StepKeepsSmall(s, steps[0]);
      LaterRequests(steps, allowed);
      RunKeepsLaw(Next(s, steps[0]), steps[1..], allowed);
    }
  }

  /**
    Over all interleavings: every run whose request sizes lie in `allowed` keeps the law if and
    only if every size in `allowed` is harmless. Runs are closed under prefixes, so the law
    holds at every half-step.
   */
  lemma {:induction false} LawExactly(max: nat, allowed: iset<nat>)
    requires max < USIZE
    ensures (forall steps :: IsRun(Init(max), steps) && Requests(steps, allowed) ==> Law(After(Init(max), steps)))
       <==> (forall n :: n in allowed && n < USIZE ==> Harmless(n, max))
  {
    if n :| n in allowed && n < USIZE && !Harmless(n, max) {
      BrokenByWideRequest(max, n, allowed);
    } else {
      var usable := iset n | n in allowed && n < USIZE;
      forall steps | IsRun(Init(max), steps) && Requests(steps, allowed)
        ensures Law(After(Init(max), steps))
      {
        RequestsFit(Init(max), steps, allowed);
        RunKeepsLaw(Init(max), steps, usable);
      }
    }
  }

  lemma {:induction false} RequestsFit(s: State, steps: seq<Step>, allowed: iset<nat>)
    requires IsRun(s, steps) && Requests(steps, allowed)
    ensures Requests(steps, iset n | n in allowed && n < USIZE)
    decreases |steps|
  {
    if steps != [] {
      assert forall i :: 0 <= i < |steps[1..]| ==> steps[1..][i] == steps[i + 1];
      RequestsFit(Next(s, steps[0]), steps[1..], allowed);
      forall i | 0 <= i < |steps| && steps[i].Take?
        ensures steps[i].request < USIZE
      {
        if i > 0 {
          assert steps[i] == steps[1..][i - 1];
        }
      }
    }
  }

  /** One granted request of 2^32 permits or more makes the counter overshoot. */
  lemma BrokenByWideRequest(max: nat, n: nat, allowed: iset<nat>)
    requires max < USIZE && n in allowed && n < USIZE && !Harmless(n, max)
    ensures exists steps :: IsRun(Init(max), steps) && Requests(steps, allowed) && !Law(After(Init(max), steps))
  {
    var steps := [Take(n), Count(0)];
    RunOfTwo(Init(max), Take(n), Count(0));
    assert Requests(steps, allowed) && !Law(After(Init(max), steps));
  }

  lemma WrappedAddSub(a: nat, n: nat)
    requires a < USIZE && n < USIZE
    ensures ((a + n) % USIZE - n) % USIZE == a
  {
    assert (a + n) % USIZE == if a + n < USIZE then a + n else a + n - USIZE;
  }

  /** Dropping a permit undoes its acquire, for requests of any size. */
  lemma ReleaseUndoesAcquire(s: State, request: nat)
    requires s.acquired < USIZE && Enabled(s, Take(request))
    ensures var who := |s.permits|;
            var taken := Next(s, Take(request));
            Enabled(taken, Count(who)) &&
            var held := Next(taken, Count(who));
            Enabled(held, Uncount(who)) &&
            var uncounted := Next(held, Uncount(who));
            Enabled(uncounted, Return(who)) &&
            var returned := Next(uncounted, Return(who));
            returned.available == s.available && returned.acquired == s.acquired
  {
    WrappedAddSub(s.acquired, request);
  }

  // ----- load shedding

  predicate IsLoadSheddingActive(s: State, threshold: nat) {
    s.acquired >= threshold
  }

  datatype CheckResult = Ok | LoadSheddingActive(yieldedActors: nat, threshold: nat)

  /** The check reads the counter twice; other steps may come between the reads. */
  function CheckLoadShedding(first: State, second: State, threshold: nat): CheckResult {
    if IsLoadSheddingActive(first, threshold) then LoadSheddingActive(second.acquired, threshold) else Ok
  }

  ghost predicate SmallRun(max: nat, steps: seq<Step>) {
    IsRun(Init(max), steps) && Requests(steps, iset n: nat | Fits32(n))
  }

  /** `count` callers acquire one permit each, one after the other. */
  function AcquireOneByOne(count: nat): seq<Step> {
    if count == 0 then [] else AcquireOneByOne(count - 1) + [Take(1), Count(count - 1)]
  }

  lemma {:induction false} RunConcat(s: State, first: seq<Step>, second: seq<Step>)
    requires IsRun(s, first)
    ensures IsRun(s, first + second) <==> IsRun(After(s, first), second)
    ensures IsRun(s, first + second) ==> After(s, first + second) == After(After(s, first), second)
    decreases |first|
  {
    if first == [] {
      assert first + second == second;
    } else {
      assert (first + second)[0] == first[0] && (first + second)[1..] == first[1..] + second;
      RunConcat(Next(s, first[0]), first[1..], second);
    }
  }

  lemma {:induction false} AcquireOneByOneRuns(max: nat, count: nat)
    requires count <= max < USIZE
    ensures SmallRun(max, AcquireOneByOne(count))
    ensures var s := After(Init(max), AcquireOneByOne(count));
            s.available == max - count && s.acquired == count && |s.permits| == count
  {
    if count > 0 {
      AcquireOneByOneRuns(max, count - 1);
      var before := AcquireOneByOne(count - 1);
      var more := [Take(1), Count(count - 1)];
      RunOfTwo(After(Init(max), before), Take(1), Count(count - 1));
      RunConcat(Init(max), before, more);
    }
  }

  /** A run in which one request is taken and counted. */
  lemma OneRequest(max: nat, n: nat)
    requires n < USIZE && n % U32 <= max
    ensures IsRun(Init(max), [Take(n), Count(0)]) && After(Init(max), [Take(n), Count(0)]).acquired == n
  {
    RunOfTwo(Init(max), Take(n), Count(0));
  }

  lemma {:induction false} RunConserves(s: State, steps: seq<Step>)
    requires Conserved(s) && IsRun(s, steps)
    ensures Conserved(After(s, steps)) && After(s, steps).max == s.max
    decreases |steps|
  {
    if steps != [] {
      StepConserves(s, steps[0]);
      RunConserves(Next(s, steps[0]), steps[1..]);
    }
  }

  /** The counted permits exceed a multiple of 2^32 by at most the outstanding ones. */
  lemma {:induction false} CountedLowBits(ps: seq<Permit>) returns (q: nat, low: nat)
    ensures Sum(ps, Counted) == U32 * q + low && low <= Sum(ps, Outstanding)
  {
    if ps == [] {
      q, low := 0, 0;
    } else {
      var p := ps[|ps| - 1];
      q, low := CountedLowBits(ps[..|ps| - 1]);
      if p.phase == Held {
        q, low := q + p.permits / U32, low + p.permits % U32;
      }
    }
  }

  lemma WrapKeepsLowBits(q: nat, low: nat)
    requires low < U32
    ensures (U32 * q + low) % USIZE <= USIZE - U32 + low
  {
    var hi, lo := q / U32, q % U32;
    assert q == U32 * hi + lo && U32 * (U32 * hi + lo) == USIZE * hi + U32 * lo;
    WrapIgnoresMultiples(U32 * lo + low, hi);
  }

  /** The largest value the counter can reach with requests of any size. */
  function LargestCount(max: nat): nat {
    USIZE - U32 + (if max < U32 then max else U32 - 1)
  }

  lemma CountAtMostLargest(max: nat, steps: seq<Step>)
    requires max < USIZE && IsRun(Init(max), steps)
    ensures After(Init(max), steps).acquired <= LargestCount(max)
  {
    RunConserves(Init(max), steps);
    if max < U32 {
      var q, low := CountedLowBits(After(Init(max), steps).permits);
      WrapKeepsLowBits(q, low);
    }
  }

  ghost predicate Sheds(max: nat, steps: seq<Step>, threshold: nat) {
    IsRun(Init(max), steps) && IsLoadSheddingActive(After(Init(max), steps), threshold)
  }

  /**
    With requests that fit 32 bits, some run reports load shedding at `threshold` if and only if
    `threshold` is at most the number of permits; with requests of any size, if and only if it
    is at most `LargestCount`.
   */
  lemma SheddingReachableExactly(max: nat, threshold: nat)
    requires max < USIZE
    ensures (exists steps :: SmallRun(max, steps) && Sheds(max, steps, threshold)) <==> threshold <= max
    ensures (exists steps :: Sheds(max, steps, threshold)) <==> threshold <= LargestCount(max)
  {
    if threshold <= max {
      AcquireOneByOneRuns(max, threshold);
      assert Sheds(max, AcquireOneByOne(threshold), threshold);
    }
    forall steps | SmallRun(max, steps)
      ensures After(Init(max), steps).acquired <= max
    {
      RunKeepsLaw(Init(max), steps, iset n: nat | Fits32(n));
    }
    if threshold <= LargestCount(max) {
      OneRequest(max, LargestCount(max));
      assert Sheds(max, [Take(LargestCount(max)), Count(0)], threshold);
    }
    forall steps | Sheds(max, steps, threshold)
      ensures threshold <= LargestCount(max)
    {
      CountAtMostLargest(max, steps);
    }
  }

  /**
    At a threshold above the number of permits and within 32 bits, no run with request sizes in
    `allowed` reports load shedding if and only if every allowed size is harmless.
   */
  lemma NeverShedsExactly(max: nat, threshold: nat, allowed: iset<nat>)
    requires max < threshold <= U32
    ensures (forall steps :: Requests(steps, allowed) ==> !Sheds(max, steps, threshold))
       <==> (forall n :: n in allowed && n < USIZE ==> Harmless(n, max))
  {
    if n :| n in allowed && n < USIZE && !Harmless(n, max) {
      OneRequest(max, n);
      assert Sheds(max, [Take(n), Count(0)], threshold) && Requests([Take(n), Count(0)], allowed);
    } else {
      forall steps | Requests(steps, allowed) && IsRun(Init(max), steps)
        ensures After(Init(max), steps).acquired <= max
      {
        RequestsFit(Init(max), steps, allowed);
        RunKeepsLaw(Init(max), steps, iset n | n in allowed && n < USIZE);
      }
    }
  }

  /** The check at the default threshold, its two loads `between` apart. */
  ghost predicate DefaultCheckIsOk(first: seq<Step>, between: seq<Step>)
    requires IsRun(Init(MAX_CONCURRENT_BINARIES), first)
    requires IsRun(Init(MAX_CONCURRENT_BINARIES), first + between)
  {
    CheckLoadShedding(After(Init(MAX_CONCURRENT_BINARIES), first),
                      After(Init(MAX_CONCURRENT_BINARIES), first + between), MAX_YIELDED_ACTORS) == Ok
  }

  ghost predicate DefaultRun(first: seq<Step>, between: seq<Step>, allowed: iset<nat>) {
    && IsRun(Init(MAX_CONCURRENT_BINARIES), first) && IsRun(Init(MAX_CONCURRENT_BINARIES), first + between)
    && Requests(first + between, allowed)
  }

  /**
    The default semaphore (500 permits) answers Ok at the default threshold (5,000) in every run
    with request sizes in `allowed` if and only if each of them is below 2^32 or is never granted.
   */
  lemma DefaultNeverSheds(allowed: iset<nat>)
    ensures (forall first, between :: DefaultRun(first, between, allowed) ==> DefaultCheckIsOk(first, between))
       <==> (forall n :: n in allowed && n < USIZE ==> n < 0x1_0000_0000 || n % 0x1_0000_0000 > 500)
  {
    var max, threshold := MAX_CONCURRENT_BINARIES, MAX_YIELDED_ACTORS;
    NeverShedsExactly(max, threshold, allowed);
    if steps :| Requests(steps, allowed) && Sheds(max, steps, threshold) {
      assert steps + [] == steps;
      assert DefaultRun(steps, [], allowed) && !DefaultCheckIsOk(steps, []);
    } else {
      forall first, between | DefaultRun(first, between, allowed)
        ensures DefaultCheckIsOk(first, between)
      {
        assert forall i :: 0 <= i < |first| ==> (first + between)[i] == first[i];
        assert Requests(first, allowed);
      }
    }
  }

  // ----- the code, half-step by half-step

  datatype Acquire = Granted(who: nat) | LimitReached(currentPermits: nat, requested: nat)

  class LoadSheddingSemaphore {
    const maxPermits: nat
    var available: nat
    var acquired: nat
    var permits: seq<Permit>

    ghost function View(): State
      reads this
    {
      State(maxPermits, available, acquired, permits)
    }

    constructor (max: nat)
      ensures View() == Init(max)
    {
      maxPermits, available, acquired, permits := max, max, 0, [];
    }

    method TakePermits(request: nat) returns (r: Acquire)
      requires request < USIZE
      modifies this
      ensures r.Granted? <==> old(Enabled(View(), Take(request)))
      ensures r.Granted? ==> r.who == old(|permits|) && View() == old(Next(View(), Take(request)))
      ensures r.LimitReached? ==> View() == old(View()) && r == LimitReached(available, request)
    {
      var truncated := request % U32;
      if truncated > available {
        return LimitReached(available, request);
      }
      r := Granted(|permits|);
      available := available - truncated;
      permits := permits + [Permit(request, Taken)];
    }

    method CountPermits(who: nat)
      requires Enabled(View(), Count(who))
      modifies this
      ensures View() == old(Next(View(), Count(who)))
    {
      acquired := (acquired + permits[who].permits) % USIZE;
      permits := SetPhase(permits, who, Held);
    }

    method UncountPermits(who: nat)
      requires Enabled(View(), Uncount(who))
      modifies this
      ensures View() == old(Next(View(), Uncount(who)))
    {
      acquired := (acquired - permits[who].permits) % USIZE;
      permits := SetPhase(permits, who, Uncounted);
    }

    method ReturnPermits(who: nat)
      requires Enabled(View(), Return(who))
      modifies this
      ensures View() == old(Next(View(), Return(who)))
    {
      available := available + permits[who].permits % U32;
      permits := SetPhase(permits, who, Returned);
    }

    /**
      Both halves of an acquire without interference. The low 32 bits decide and are taken, the
      whole request is counted; the total is conserved exactly for requests below 2^32.
     */
    method TryAcquireMany(request: nat) returns (r: Acquire)
      requires request < USIZE && acquired < USIZE
      modifies this
      ensures r.LimitReached? <==> request % U32 > old(available)
      ensures r.LimitReached? ==> View() == old(View()) && r == LimitReached(old(available), request)
      ensures r.Granted? ==> available == old(available) - request % U32 && acquired == old(acquired + request) % USIZE
      ensures r.Granted? ==> r.who == old(|permits|) && permits == old(permits) + [Permit(request, Held)]
      ensures r.Granted? && old(acquired + available) == maxPermits < USIZE ==>
        (acquired + available == maxPermits <==> request < U32)
    {
      r := TakePermits(request);
      if r.Granted? {
        CountPermits(r.who);
      }
    }

    /** Both halves of a release: the counter loses the whole size, the semaphore regains its low 32 bits. */
    method Release(who: nat)
      requires InPhase(View(), who, Held)
      modifies this
      ensures available == old(available) + old(permits)[who].permits % U32
      ensures acquired == old(acquired - permits[who].permits) % USIZE
      ensures permits == old(permits)[who := Permit(old(permits)[who].permits, Returned)]
    {
      UncountPermits(who);
      ReturnPermits(who);
    }

    /** `check_load_shedding_threshold` without interference. */
    method Check(threshold: nat) returns (r: CheckResult)
      ensures r == if acquired >= threshold then LoadSheddingActive(acquired, threshold) else Ok
    {
      r := CheckLoadShedding(State(maxPermits, available, acquired, permits),
                             State(maxPermits, available, acquired, permits), threshold);
    }
  }
}
