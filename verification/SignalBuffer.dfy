/**
  Buffered workflow signals, `crates/vo-actor/src/signal_buffer.rs`.

  Keys (an instance id with a wait key) and signals are type parameters. An entry is a single
  signal or a queue; a single signal becomes a queue of two when a second one is buffered,
  whatever the capacity. `buffer_signal` is the drop-oldest case of the offer below.
 */
module SignalBuffer {
  import opened Options

  datatype Policy = Reject | BufferOne | BufferMany
  datatype Overflow = DropOldest | DropNewest | Error
  datatype BufferResult = Buffered | Rejected | Dropped
  datatype Response = Ok(result: BufferResult) | OverflowError(droppedCount: nat)
  datatype Delivery = Accepted | DeliveryRejected | DeliveryBuffered

  datatype Entry<S> = Single(signal: S) | Many(queue: seq<S>)

  /** `capacity` is the configured `max_buffered_per_key`. */
  datatype Buffer<!K, S> = Buffer(entries: map<K, Entry<S>>, capacity: nat)

  function Signals<S>(e: Entry<S>): seq<S> {
    match e
    case Single(s) => [s]
    case Many(q) => q
  }

  /** All signals buffered for a key, oldest first. */
  function PeekAll<K, S>(b: Buffer<K, S>, key: K): seq<S> {
    if key in b.entries then Signals(b.entries[key]) else []
  }

  function BufferedCount<K, S>(b: Buffer<K, S>, key: K): nat {
    |PeekAll(b, key)|
  }

  /** The pure decision table for a signal that may find its actor waiting. */
  function ApplyPolicy(policy: Policy, hasMatchingWait: bool, hasExistingBuffer: bool)
    : (Delivery, Option<BufferResult>)
  {
    if hasMatchingWait then (Accepted, None)
    else
      match policy
      case Reject => (DeliveryRejected, Some(Rejected))
      case BufferOne =>
        if hasExistingBuffer then (DeliveryRejected, Some(Rejected)) else (DeliveryBuffered, Some(Buffered))
      case BufferMany => (DeliveryBuffered, Some(Buffered))
  }

  // ----- operations

  datatype Op<K, S> =
    | Offer(key: K, signal: S, policy: Policy, overflow: Overflow)
    | Pop(key: K)
    | Clear(key: K)

  datatype Outcome<S> = Offered(response: Response) | Popped(signal: Option<S>) | Cleared

  /** Only a queue at capacity overflows; a single signal never does. */
  predicate Full<K, S>(b: Buffer<K, S>, key: K) {
    (key in b.entries ==> b.entries[key].Many?) && BufferedCount(b, key) >= b.capacity
  }

  function DropFirst<S>(q: seq<S>): seq<S> {
    if q == [] then [] else q[1..]
  }

  function OfferMany<K, S>(b: Buffer<K, S>, key: K, signal: S, overflow: Overflow): (Buffer<K, S>, Response) {
    var q := PeekAll(b, key);
    if !Full(b, key) then (b.(entries := b.entries[key := Many(q + [signal])]), Ok(Buffered))
    else
      match overflow
      case DropOldest => (b.(entries := b.entries[key := Many(DropFirst(q) + [signal])]), Ok(Buffered))
      case DropNewest => (b.(entries := b.entries[key := Many(q)]), Ok(Dropped))
      case Error => (b.(entries := b.entries[key := Many(q)]), OverflowError(1))
  }

  function OfferTo<K, S>(b: Buffer<K, S>, key: K, signal: S, policy: Policy, overflow: Overflow)
    : (Buffer<K, S>, Response)
  {
    match policy
    case Reject => (b, Ok(Rejected))
    case BufferOne =>
      if key in b.entries then (b, Ok(Rejected))
      else (b.(entries := b.entries[key := Single(signal)]), Ok(Buffered))
    case BufferMany => OfferMany(b, key, signal, overflow)
  }

  function PopFrom<K, S>(b: Buffer<K, S>, key: K): (Buffer<K, S>, Option<S>) {
    var q := PeekAll(b, key);
    if q == [] then (b, None)
    else if |q| == 1 then (b.(entries := b.entries - {key}), Some(q[0]))
    else (b.(entries := b.entries[key := Many(q[1..])]), Some(q[0]))
  }

  function Step<K, S>(b: Buffer<K, S>, op: Op<K, S>): (Buffer<K, S>, Outcome<S>) {
    match op
    case Offer(key, signal, policy, overflow) =>
      var (b', r) := OfferTo(b, key, signal, policy, overflow); (b', Offered(r))
    case Pop(key) => var (b', s) := PopFrom(b, key); (b', Popped(s))
    case Clear(key) => (b.(entries := b.entries - {key}), Cleared)
  }

  function Run<K, S>(b: Buffer<K, S>, ops: seq<Op<K, S>>): Buffer<K, S> {
    if ops == [] then b else Step(Run(b, ops[..|ops| - 1]), ops[|ops| - 1]).0
  }

  function New<K, S>(capacity: nat): Buffer<K, S> {
    Buffer(map[], capacity)
  }

  // ----- what one operation answers and leaves

  /** Every operation is about one key. */
  lemma OnlyItsKey<K, S>(b: Buffer<K, S>, op: Op<K, S>, other: K)
    requires other != op.key
    ensures PeekAll(Step(b, op).0, other) == PeekAll(b, other)
    ensures other in Step(b, op).0.entries <==> other in b.entries
  {
  }

  lemma OfferRejects<K, S>(b: Buffer<K, S>, key: K, signal: S, policy: Policy, overflow: Overflow)
    requires policy == Reject || (policy == BufferOne && key in b.entries)
    ensures OfferTo(b, key, signal, policy, overflow) == (b, Ok(Rejected))
  {
  }

  lemma OfferFirst<K, S>(b: Buffer<K, S>, key: K, signal: S, overflow: Overflow)
    requires key !in b.entries
    ensures var (b', r) := OfferTo(b, key, signal, BufferOne, overflow);
            r == Ok(Buffered) && PeekAll(b', key) == [signal]
  {
  }

  /** Below the capacity, or behind a single signal, every signal is appended, whatever the overflow policy. */
  lemma OfferBelowCapacity<K, S>(b: Buffer<K, S>, key: K, signal: S, overflow: Overflow)
    requires BufferedCount(b, key) < b.capacity || (key in b.entries && b.entries[key].Single?)
    ensures var (b', r) := OfferTo(b, key, signal, BufferMany, overflow);
            r == Ok(Buffered) && PeekAll(b', key) == PeekAll(b, key) + [signal]
  {
  }

  /** At the capacity the overflow policy decides what is lost and what is answered. */
  lemma OfferAtCapacity<K, S>(b: Buffer<K, S>, key: K, signal: S, overflow: Overflow)
    requires BufferedCount(b, key) >= b.capacity && (key in b.entries ==> b.entries[key].Many?)
    ensures var (b', r) := OfferTo(b, key, signal, BufferMany, overflow);
      var q := PeekAll(b, key);
      match overflow
      case DropOldest => r == Ok(Buffered) && PeekAll(b', key) == (if |q| > 0 then q[1..] else []) + [signal]
      case DropNewest => r == Ok(Dropped) && PeekAll(b', key) == q
      case Error => r == OverflowError(1) && PeekAll(b', key) == q
  {
  }

  /** A pop delivers the oldest signal whenever there is one, and leaves the others. */
  lemma PopOldest<K, S>(b: Buffer<K, S>, key: K)
    ensures var (b', s) := PopFrom(b, key);
      var q := PeekAll(b, key);
      if |q| == 0 then s == None && b' == b else s == Some(q[0]) && PeekAll(b', key) == q[1..]
  {
  }

  /** After a clear nothing is buffered for the key. */
  lemma ClearEmpties<K, S>(b: Buffer<K, S>, key: K)
    ensures PeekAll(Step(b, Clear(key)).0, key) == [] && key !in Step(b, Clear(key)).0.entries
  {
  }

  // ----- the code

  class SignalBuffer<K(==), S> {
    var entries: map<K, Entry<S>>
    const maxBufferedPerKey: nat

    ghost function View(): Buffer<K, S>
      reads this
    {
      Buffer(entries, maxBufferedPerKey)
    }

    constructor (capacity: nat)
      ensures View() == New(capacity)
    {
      entries, maxBufferedPerKey := map[], capacity;
    }

    method BufferSignalWithPolicy(key: K, signal: S, policy: Policy, overflow: Overflow) returns (r: Response)
      modifies this
      ensures (View(), r) == OfferTo(old(View()), key, signal, policy, overflow)
      ensures policy == BufferMany && old(BufferedCount(View(), key)) < maxBufferedPerKey ==>
        r == Ok(Buffered) && PeekAll(View(), key) == old(PeekAll(View(), key)) + [signal]
    {
      match policy
      case Reject =>
        r := Ok(Rejected);
      case BufferOne =>
        if key in entries {
          return Ok(Rejected);
        }
        entries := entries[key := Single(signal)];
        r := Ok(Buffered);
      case BufferMany =>
        if key !in entries {
          entries := entries[key := Many([])];
        }
        match entries[key] {
          case Many(queue) =>
            if |queue| >= maxBufferedPerKey {
              match overflow {
                case DropOldest =>
                  var rest := if |queue| == 0 then queue else queue[1..];
                  entries := entries[key := Many(rest + [signal])];
                  r := Ok(Buffered);
                case DropNewest =>
                  r := Ok(Dropped);
                case Error =>
                  r := OverflowError(1);
              }
            } else {
              entries := entries[key := Many(queue + [signal])];
              r := Ok(Buffered);
            }
          case Single(first) =>
            var queue := [first];
            queue := queue + [signal];
            entries := entries[key := Many(queue)];
            r := Ok(Buffered);
        }
        assert entries == OfferTo(old(View()), key, signal, policy, overflow).0.entries;
    }

    /** `buffer_signal`: the drop-oldest case, which never fails. */
    method BufferSignal(key: K, signal: S, policy: Policy) returns (result: BufferResult)
      modifies this
      ensures (View(), Ok(result)) == OfferTo(old(View()), key, signal, policy, DropOldest)
    {
      var r := BufferSignalWithPolicy(key, signal, policy, DropOldest);
      result := r.result;
    }

    method PopBuffered(key: K) returns (popped: Option<S>)
      modifies this
      ensures (View(), popped) == PopFrom(old(View()), key)
    {
      if key !in entries {
        return None;
      }
      match entries[key]
      case Single(signal) =>
        entries := entries - {key};
        popped := Some(signal);
      case Many(queue) =>
        if |queue| == 0 {
          return None;
        }
        popped := Some(queue[0]);
        if |queue| == 1 {
          entries := entries - {key};
        } else {
          entries := entries[key := Many(queue[1..])];
        }
    }

    method ClearKey(key: K)
      modifies this
      ensures View() == Step(old(View()), Clear(key)).0
    {
      entries := entries - {key};
    }

    /** Adds up the lengths of all entries. */
    method TotalBufferedCount() returns (total: nat)
      ensures total == Total(entries)
    {
      total := 0;
      var rest := entries;
      while rest != map[]
        invariant total + Total(rest) == Total(entries)
        decreases |rest|
      {
        var key :| key in rest;
        TotalRemove(rest, key);
        total := total + |Signals(rest[key])|;
        rest := rest - {key};
      }
    }
  }

  // ----- the total over all keys

  ghost function Total<K, S>(m: map<K, Entry<S>>): nat
    decreases |m|
  {
    if m == map[] then 0
    else
      var key :| key in m;
      |Signals(m[key])| + Total(m - {key})
  }

  lemma {:induction false} TotalRemove<K, S>(m: map<K, Entry<S>>, key: K)
    requires key in m
    ensures Total(m) == |Signals(m[key])| + Total(m - {key})
    decreases |m|
  {
    var first :| first in m && Total(m) == |Signals(m[first])| + Total(m - {first});
    if first != key {
      TotalRemove(m - {first}, key);
      TotalRemove(m - {key}, first);
      assert m - {first} - {key} == m - {key} - {first};
    }
  }

  // ----- order and conservation, for every key and every run

  /** What became of a signal that left a queue. */
  datatype Fate<S> = Delivered(signal: S) | Evicted(signal: S)

  /** Since the last clear of a key: the signals answered Buffered, and those that left, in order. */
  datatype History<S> = History(accepted: seq<S>, left: seq<Fate<S>>)

  /** The signal a drop-oldest overflow pushes out. */
  function EvictedBy<K, S>(b: Buffer<K, S>, op: Op<K, S>, key: K): seq<Fate<S>> {
    if op.Offer? && op.key == key && op.policy == BufferMany && op.overflow == DropOldest
       && Full(b, key) && PeekAll(b, key) != []
    then [Evicted(PeekAll(b, key)[0])] else []
  }

  function Track<K, S>(h: History<S>, b: Buffer<K, S>, op: Op<K, S>, key: K): History<S> {
    if op.key != key then h
    else
      match Step(b, op).1
      case Offered(r) =>
        History(h.accepted + (if r == Ok(Buffered) then [op.signal] else []), h.left + EvictedBy(b, op, key))
      case Popped(s) => h.(left := h.left + (if s.Some? then [Delivered(s.value)] else []))
      case Cleared => History([], [])
  }

  function HistoryOf<K, S>(b: Buffer<K, S>, ops: seq<Op<K, S>>, key: K): History<S> {
    if ops == [] then History([], [])
    else Track(HistoryOf(b, ops[..|ops| - 1], key), Run(b, ops[..|ops| - 1]), ops[|ops| - 1], key)
  }

  function SignalsOf<S>(fates: seq<Fate<S>>): seq<S> {
    seq(|fates|, i requires 0 <= i < |fates| => fates[i].signal)
  }

  /** Signals left in the order they were accepted, and what is buffered are exactly the rest. */
  ghost predicate InOrder<K, S>(h: History<S>, b: Buffer<K, S>, key: K) {
    h.accepted == SignalsOf(h.left) + PeekAll(b, key)
  }

  lemma OneMoreLeft<S>(left: seq<Fate<S>>, fate: Fate<S>, q: seq<S>)
    requires |q| > 0 && fate.signal == q[0]
    ensures SignalsOf(left) + q == SignalsOf(left + [fate]) + q[1..]
  {
    assert SignalsOf(left + [fate]) == SignalsOf(left) + [q[0]];
    assert q == [q[0]] + q[1..];
  }

  lemma OfferInOrder<K, S>(h: History<S>, b: Buffer<K, S>, op: Op<K, S>, key: K)
    requires InOrder(h, b, key) && op.Offer? && op.key == key
    ensures InOrder(Track(h, b, op, key), Step(b, op).0, key)
  {
    var q, gone := PeekAll(b, key), EvictedBy(b, op, key);
    if |gone| > 0 {
      OneMoreLeft(h.left, gone[0], q);
      assert gone == [gone[0]] && PeekAll(Step(b, op).0, key) == q[1..] + [op.signal];
    } else {
      assert h.left + gone == h.left;
    }
  }

  lemma PopInOrder<K, S>(h: History<S>, b: Buffer<K, S>, op: Op<K, S>, key: K)
    requires InOrder(h, b, key) && op.Pop? && op.key == key
    ensures InOrder(Track(h, b, op, key), Step(b, op).0, key)
  {
    var q := PeekAll(b, key);
    if |q| > 0 {
      OneMoreLeft(h.left, Delivered(q[0]), q);
      assert PeekAll(Step(b, op).0, key) == q[1..];
    } else {
      assert h.left + [] == h.left;
    }
  }

  lemma StepInOrder<K, S>(h: History<S>, b: Buffer<K, S>, op: Op<K, S>, key: K)
    requires InOrder(h, b, key)
    ensures InOrder(Track(h, b, op, key), Step(b, op).0, key)
  {
    if op.key == key {
      match op
      case Offer(_, _, _, _) => OfferInOrder(h, b, op, key);
      case Pop(_) => PopInOrder(h, b, op, key);
      case Clear(_) =>
    }
  }

  /**
    In every run, for every key: the signals answered Buffered since the last clear are exactly
    those that left, delivered or evicted, in order, followed by those still buffered.
   */
  lemma {:induction false} RunInOrder<K, S>(capacity: nat, ops: seq<Op<K, S>>, key: K)
    ensures InOrder(HistoryOf(New(capacity), ops, key), Run(New(capacity), ops), key)
  {
    if ops != [] {
      RunInOrder(capacity, ops[..|ops| - 1], key);
      StepInOrder(HistoryOf(New(capacity), ops[..|ops| - 1], key), Run(New(capacity), ops[..|ops| - 1]),
                  ops[|ops| - 1], key);
    }
  }

  function DeliveredIn<S>(fates: seq<Fate<S>>): seq<S> {
    if fates == [] then []
    else
      var last := fates[|fates| - 1];
      DeliveredIn(fates[..|fates| - 1]) + (if last.Delivered? then [last.signal] else [])
  }

  ghost predicate NeverDropsOldest<K, S>(ops: seq<Op<K, S>>, key: K) {
    forall i :: 0 <= i < |ops| && ops[i].Offer? && ops[i].key == key ==> ops[i].overflow != DropOldest
  }

  lemma {:induction false} NothingEvicted<K, S>(b: Buffer<K, S>, ops: seq<Op<K, S>>, key: K)
    requires NeverDropsOldest(ops, key)
    ensures forall i :: 0 <= i < |HistoryOf(b, ops, key).left| ==> HistoryOf(b, ops, key).left[i].Delivered?
  {
    if ops != [] {
      NothingEvicted(b, ops[..|ops| - 1], key);
    }
  }

  lemma {:induction false} AllDelivered<S>(fates: seq<Fate<S>>)
    requires forall i :: 0 <= i < |fates| ==> fates[i].Delivered?
    ensures DeliveredIn(fates) == SignalsOf(fates)
  {
    if fates != [] {
      AllDelivered(fates[..|fates| - 1]);
      assert SignalsOf(fates) == SignalsOf(fates[..|fates| - 1]) + [fates[|fates| - 1].signal];
    }
  }

  /** Without drop-oldest offers nothing accepted is lost: popped then buffered is what was accepted. */
  lemma NothingLost<K, S>(capacity: nat, ops: seq<Op<K, S>>, key: K)
    requires NeverDropsOldest(ops, key)
    ensures var h := HistoryOf(New(capacity), ops, key);
            h.accepted == DeliveredIn(h.left) + PeekAll(Run(New(capacity), ops), key)
  {
    RunInOrder(capacity, ops, key);
    NothingEvicted(New(capacity), ops, key);
    AllDelivered(HistoryOf(New(capacity), ops, key).left);
  }

  /** `sub` is `whole` with some elements left out. */
  ghost predicate Subsequence<S>(sub: seq<S>, whole: seq<S>) {
    if sub == [] then true
    else if whole == [] then false
    else
      || (sub[|sub| - 1] == whole[|whole| - 1] && Subsequence(sub[..|sub| - 1], whole[..|whole| - 1]))
      || Subsequence(sub, whole[..|whole| - 1])
  }

  lemma {:induction false} DeliveredSubsequence<S>(fates: seq<Fate<S>>)
    ensures Subsequence(DeliveredIn(fates), SignalsOf(fates))
  {
    if fates != [] {
      var front, last := fates[..|fates| - 1], fates[|fates| - 1];
      DeliveredSubsequence(front);
      assert SignalsOf(fates)[..|fates| - 1] == SignalsOf(front);
      if last.Delivered? {
        assert DeliveredIn(fates)[..|DeliveredIn(fates)| - 1] == DeliveredIn(front);
      } else {
        assert DeliveredIn(fates) == DeliveredIn(front);
      }
    }
  }

  lemma {:induction false} SubsequenceAppend<S>(sub: seq<S>, whole: seq<S>, tail: seq<S>)
    requires Subsequence(sub, whole)
    ensures Subsequence(sub + tail, whole + tail)
    decreases |tail|
  {
    if tail == [] {
      assert sub + tail == sub && whole + tail == whole;
    } else {
      SubsequenceAppend(sub, whole, tail[..|tail| - 1]);
      assert (sub + tail)[..|sub + tail| - 1] == sub + tail[..|tail| - 1];
      assert (whole + tail)[..|whole + tail| - 1] == whole + tail[..|tail| - 1];
    }
  }

  /** Under any overflow policy, popped then buffered signals are an ordered subsequence of the accepted
      ones, and accepted = popped + evicted + still buffered. */
  lemma OrderedSubsequence<K, S>(capacity: nat, ops: seq<Op<K, S>>, key: K)
    ensures var h := HistoryOf(New(capacity), ops, key);
            var buffered := PeekAll(Run(New(capacity), ops), key);
            && Subsequence(DeliveredIn(h.left) + buffered, h.accepted)
            && |h.accepted| == |h.left| + |buffered|
  {
    RunInOrder(capacity, ops, key);
    var h := HistoryOf(New(capacity), ops, key);
    DeliveredSubsequence(h.left);
    SubsequenceAppend(DeliveredIn(h.left), SignalsOf(h.left), PeekAll(Run(New(capacity), ops), key));
  }

  // ----- bounds

  ghost predicate NoEmptyQueue<K, S>(b: Buffer<K, S>) {
    forall key :: key in b.entries ==> Signals(b.entries[key]) != []
  }

  ghost predicate Bounded<K, S>(b: Buffer<K, S>, bound: nat) {
    forall key :: key in b.entries ==> |Signals(b.entries[key])| <= bound
  }

  lemma {:induction false} RunCapacity<K, S>(capacity: nat, ops: seq<Op<K, S>>)
    ensures Run(New<K, S>(capacity), ops).capacity == capacity
  {
    if ops != [] {
      RunCapacity<K, S>(capacity, ops[..|ops| - 1]);
    }
  }

  /** No key ever holds more than the capacity or two signals, whichever is larger. */
  lemma {:induction false} RunBounded<K, S>(capacity: nat, ops: seq<Op<K, S>>)
    ensures Bounded(Run(New<K, S>(capacity), ops), if capacity < 2 then 2 else capacity)
  {
    if ops != [] {
      RunBounded<K, S>(capacity, ops[..|ops| - 1]);
      RunCapacity<K, S>(capacity, ops[..|ops| - 1]);
    }
  }

  lemma {:induction false} RunNoEmptyQueue<K, S>(capacity: nat, ops: seq<Op<K, S>>)
    requires capacity >= 1
    ensures NoEmptyQueue(Run(New<K, S>(capacity), ops))
  {
    if ops != [] {
      RunNoEmptyQueue<K, S>(capacity, ops[..|ops| - 1]);
      RunCapacity<K, S>(capacity, ops[..|ops| - 1]);
    }
  }

  lemma RunOne<K, S>(b: Buffer<K, S>, op: Op<K, S>)
    ensures Run(b, [op]) == Step(b, op).0
  {
    assert [op][..0] == [];
  }

  /** Stored queues are never empty, in any run, if and only if the capacity is positive. */
  lemma NoEmptyQueueExactly<K(!new), S(!new)>(capacity: nat, key: K, signal: S)
    ensures (forall ops: seq<Op<K, S>> :: NoEmptyQueue(Run(New(capacity), ops))) <==> capacity >= 1
  {
    if capacity >= 1 {
      forall ops: seq<Op<K, S>>
        ensures NoEmptyQueue(Run(New(capacity), ops))
      {
        RunNoEmptyQueue(capacity, ops);
      }
    } else {
      var op := Offer(key, signal, BufferMany, DropNewest);
      RunOne(New(0), op);
      assert key in Run(New(0), [op]).entries;
      assert !NoEmptyQueue(Run(New(0), [op]));
    }
  }

  /** A single signal upgraded to a queue of two, whatever the capacity. */
  function OneThenMany<K, S>(key: K, signal: S): seq<Op<K, S>> {
    [Offer(key, signal, BufferOne, DropOldest), Offer(key, signal, BufferMany, DropOldest)]
  }

  lemma OneThenManyHoldsTwo<K, S>(capacity: nat, key: K, signal: S)
    ensures BufferedCount(Run(New(capacity), OneThenMany(key, signal)), key) == 2
  {
    var ops := OneThenMany(key, signal);
    assert ops[..1] == [ops[0]];
    RunOne(New(capacity), ops[0]);
  }

  /** The configured capacity bounds every key, in every run, if and only if it is at least 2. */
  lemma CapacityBoundExactly<K(!new), S(!new)>(capacity: nat, key: K, signal: S)
    ensures (forall ops: seq<Op<K, S>> :: Bounded(Run(New(capacity), ops), capacity)) <==> capacity >= 2
  {
    if capacity >= 2 {
      forall ops: seq<Op<K, S>>
        ensures Bounded(Run(New(capacity), ops), capacity)
      {
        RunBounded(capacity, ops);
      }
    } else {
      OneThenManyHoldsTwo(capacity, key, signal);
      assert !Bounded(Run(New(capacity), OneThenMany(key, signal)), capacity);
    }
  }

  /** The decision table, asked whether anything is buffered, foretells what `buffer_signal` answers. */
  ghost predicate Foretold<K, S>(b: Buffer<K, S>, key: K, signal: S, policy: Policy) {
    ApplyPolicy(policy, false, BufferedCount(b, key) > 0).1
      == Some(OfferTo(b, key, signal, policy, DropOldest).1.result)
  }

  /** It does so in every run if and only if the capacity is positive. */
  lemma ForetoldExactly<K(!new), S(!new)>(capacity: nat, key: K, signal: S)
    ensures (forall ops: seq<Op<K, S>>, k, s, policy :: Foretold(Run(New(capacity), ops), k, s, policy))
       <==> capacity >= 1
  {
    if capacity >= 1 {
      forall ops: seq<Op<K, S>>, k, s, policy
        ensures Foretold(Run(New(capacity), ops), k, s, policy)
      {
        RunNoEmptyQueue(capacity, ops);
      }
    } else {
      var op := Offer(key, signal, BufferMany, DropNewest);
      RunOne(New(0), op);
      assert !Foretold(Run(New(0), [op]), key, signal, BufferOne);
    }
  }

  /** The number of entries is the number of keys with a positive count. */
  ghost predicate CountsKeys<K, S>(b: Buffer<K, S>) {
    |b.entries| == |set key | key in b.entries && BufferedCount(b, key) > 0|
  }

  /** `num_keys_with_signals` counts the keys with a positive count, in every run, if and only if
      the capacity is positive. */
  lemma NumKeysExactly<K(!new), S(!new)>(capacity: nat, key: K, signal: S)
    ensures (forall ops: seq<Op<K, S>> :: CountsKeys(Run(New(capacity), ops))) <==> capacity >= 1
  {
    if capacity >= 1 {
      forall ops: seq<Op<K, S>>
        ensures CountsKeys(Run(New(capacity), ops))
      {
        RunNoEmptyQueue(capacity, ops);
        var b := Run(New(capacity), ops);
        assert (set k | k in b.entries && BufferedCount(b, k) > 0) == b.entries.Keys;
      }
    } else {
      var op := Offer(key, signal, BufferMany, DropNewest);
      var b := Run(New(0), [op]);
      RunOne(New(0), op);
      assert b.entries.Keys == {key} && BufferedCount(b, key) == 0;
      assert (set k | k in b.entries && BufferedCount(b, k) > 0) == {};
      assert !CountsKeys(b);
    }
  }

  // ----- the total, over every run

  /** By how much a step changes the total: one for a signal answered Buffered, minus one for each
      signal popped or evicted, minus all of a key's when it is cleared. */
  function Gain<K, S>(b: Buffer<K, S>, op: Op<K, S>): int {
    match Step(b, op).1
    case Offered(r) => (if r == Ok(Buffered) then 1 else 0) - |EvictedBy(b, op, op.key)|
    case Popped(s) => if s.Some? then -1 else 0
    case Cleared => 0 - BufferedCount(b, op.key)
  }

  function GainOf<K, S>(b: Buffer<K, S>, ops: seq<Op<K, S>>): int {
    if ops == [] then 0
    else GainOf(b, ops[..|ops| - 1]) + Gain(Run(b, ops[..|ops| - 1]), ops[|ops| - 1])
  }

  function LengthAt<K, S>(m: map<K, Entry<S>>, key: K): nat {
    if key in m then |Signals(m[key])| else 0
  }

  /** Maps that agree away from one key differ in total by what that key holds. */
  lemma TotalDiffersAt<K, S>(m: map<K, Entry<S>>, m': map<K, Entry<S>>, key: K)
    requires m - {key} == m' - {key}
    ensures Total(m') - LengthAt(m', key) == Total(m) - LengthAt(m, key)
  {
    TotalWithout(m, key);
    TotalWithout(m', key);
  }

  lemma TotalWithout<K, S>(m: map<K, Entry<S>>, key: K)
    ensures Total(m) == LengthAt(m, key) + Total(m - {key})
  {
    if key in m {
      TotalRemove(m, key);
    } else {
      assert m - {key} == m;
    }
  }

  lemma StepElsewhere<K, S>(b: Buffer<K, S>, op: Op<K, S>)
    ensures b.entries - {op.key} == Step(b, op).0.entries - {op.key}
  {
  }

  lemma StepLength<K, S>(b: Buffer<K, S>, op: Op<K, S>)
    ensures LengthAt(Step(b, op).0.entries, op.key) == LengthAt(b.entries, op.key) + Gain(b, op)
  {
  }

  lemma StepTotal<K, S>(b: Buffer<K, S>, op: Op<K, S>)
    ensures Total(Step(b, op).0.entries) == Total(b.entries) + Gain(b, op)
  {
    StepElsewhere(b, op);
    TotalDiffersAt(b.entries, Step(b, op).0.entries, op.key);
    StepLength(b, op);
  }

  /** In every run the total is accepted - popped - evicted - cleared, over all keys together. */
  lemma {:induction false} RunTotal<K, S>(capacity: nat, ops: seq<Op<K, S>>)
    ensures Total(Run(New<K, S>(capacity), ops).entries) == GainOf(New(capacity), ops)
  {
    if ops != [] {
      RunTotal(capacity, ops[..|ops| - 1]);
      StepTotal(Run(New(capacity), ops[..|ops| - 1]), ops[|ops| - 1]);
    }
  }
}
