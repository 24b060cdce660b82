/**
  The group-committing database writer, `crates/vo-actor/src/db_writer.rs`.

  `handle` commits the request it was called with, acknowledges it, then drains the mailbox and
  commits everything drained as one batch. A commit is an ordered, all-or-nothing batch of
  key-value operations that may fail; whether it succeeds is a parameter, and so is the clock
  reading that a message's translation uses. A failing `expect` while translating a message
  ends the handler before anything is committed, exactly as a failed commit does.
 */
module DbWriter {
  import opened Keys
  import opened Mailbox
  import opened Options

  // ----- messages and key-value operations

  datatype TimerOp = Upsert(timer: TimerId, fireAt: Word) | Delete(timer: TimerId)

  /** `instance` is `None` when the envelope's id does not parse. */
  datatype Event = Event(instance: Option<InstanceId>, sequence: Word, body: Key)

  datatype Snapshot = Snapshot(sequence: Word, body: Key)

  datatype Message =
    | AppendEvent(instance: InstanceId, sequence: Word)
    | RecordInstanceStatus(instance: InstanceId, statusByte: int)
    | AcquireLease(instance: InstanceId, step: string)
    | ReleaseLease(instance: InstanceId, step: string)
    | UpsertTimer(instance: InstanceId, timer: TimerId, fireAt: Word)
    | DeleteTimer(instance: InstanceId, timer: TimerId)
    | RecordEffect(intent: string, record: Key)
    | TakeSnapshot(instance: InstanceId, sequence: Word, body: Key)
    | AtomicTransition(status: Option<int>, timerOps: seq<TimerOp>, snapshot: Option<Snapshot>, event: Event)

  /** A message together with the clock reading its translation uses. */
  datatype Write = Write(message: Message, now: Word)

  datatype Partition = Events | Instances | Leases | Timers | Effects | Snapshots

  datatype Op = Insert(partition: Partition, key: Key, value: Key) | Remove(partition: Partition, key: Key)

  type Store = map<(Partition, Key), Key>

  /** `InstanceStatus::from_byte`, with `Running` (2) for unknown bytes. */
  function StatusOf(b: int): int {
    if 1 <= b <= 6 then b else 2
  }

  function TimerOpOf(instance: InstanceId, op: TimerOp): Op {
    match op
    case Upsert(timer, fireAt) => Insert(Timers, TimerKey(fireAt, instance, timer), [])
    case Delete(timer) => Remove(Timers, TimerKey(0, instance, timer))
  }

  function TimerOpsOf(instance: InstanceId, ops: seq<TimerOp>): seq<Op> {
    if ops == [] then [] else TimerOpsOf(instance, ops[..|ops| - 1]) + [TimerOpOf(instance, ops[|ops| - 1])]
  }

  function TransitionOps(m: Message, instance: InstanceId, now: Word): seq<Op>
    requires m.AtomicTransition?
  {
    [Insert(Events, EventKey(instance, m.event.sequence), m.event.body)]
    + (if m.status.Some? then [Insert(Instances, InstanceIndexKey(m.status.value, now, instance), [])] else [])
    + TimerOpsOf(instance, m.timerOps)
    + (if m.snapshot.Some?
       then [Insert(Snapshots, SnapshotKey(instance, m.snapshot.value.sequence), m.snapshot.value.body)]
       else [])
  }

  /** The operations of one message; `None` when the translation panics. */
  function MessageOps(w: Write): Option<seq<Op>> {
    match w.message
    case AppendEvent(i, n) => Some([Insert(Events, EventKey(i, n), [])])
    case RecordInstanceStatus(i, b) => Some([Insert(Instances, InstanceIndexKey(StatusOf(b), w.now, i), [])])
    case AcquireLease(i, s) => Some([Insert(Leases, LeaseKey(i, s), [])])
    case ReleaseLease(i, s) => Some([Remove(Leases, LeaseKey(i, s))])
    case UpsertTimer(i, t, f) => Some([Insert(Timers, TimerKey(f, i, t), [])])
    case DeleteTimer(i, t) => Some([Remove(Timers, TimerKey(0, i, t))])
    case RecordEffect(intent, record) =>
      if intent == "" || |intent| + 28 >= 0x1_0000 then None
      else Some([Insert(Effects, EffectKey(intent), record)])
    case TakeSnapshot(i, n, body) => Some([Insert(Snapshots, SnapshotKey(i, n), body)])
    case AtomicTransition(_, _, _, event) =>
      if event.instance.None? || event.sequence == 0 then None
      else Some(TransitionOps(w.message, event.instance.value, w.now))
  }

  function BatchOps(ws: seq<Write>): Option<seq<Op>> {
    if ws == [] then Some([])
    else
      var front := BatchOps(ws[..|ws| - 1]);
      var last := MessageOps(ws[|ws| - 1]);
      if front.None? || last.None? then None else Some(front.value + last.value)
  }

  function ApplyOp(store: Store, op: Op): Store {
    match op
    case Insert(p, k, v) => store[(p, k) := v]
    case Remove(p, k) => store - {(p, k)}
  }

  /** An ordered batch. */
  function Apply(store: Store, ops: seq<Op>): Store {
    if ops == [] then store else ApplyOp(Apply(store, ops[..|ops| - 1]), ops[|ops| - 1])
  }

  predicate Translatable(ws: seq<Write>) {
    forall i :: 0 <= i < |ws| ==> MessageOps(ws[i]).Some?
  }

  /** Each message in a commit of its own, in order. */
  function OneByOne(store: Store, ws: seq<Write>): Store
    requires Translatable(ws)
  {
    if ws == [] then store
    else Apply(OneByOne(store, ws[..|ws| - 1]), MessageOps(ws[|ws| - 1]).value)
  }

  lemma {:induction false} ApplyConcat(store: Store, a: seq<Op>, b: seq<Op>)
    ensures Apply(store, a + b) == Apply(Apply(store, a), b)
    decreases |b|
  {
    if b == [] {
      assert a + b == a;
    } else {
      assert (a + b)[..|a + b| - 1] == a + b[..|b| - 1];
      ApplyConcat(store, a, b[..|b| - 1]);
    }
  }

  /** A batch panics if and only if one of its messages does, and is then not committed at all. */
  lemma {:induction false} BatchTranslatable(ws: seq<Write>)
    ensures BatchOps(ws).Some? <==> Translatable(ws)
  {
    if ws != [] {
      BatchTranslatable(ws[..|ws| - 1]);
    }
  }

  /** Group commit is transparent: one batch leaves the store that one commit per message leaves. */
  lemma {:induction false} GroupCommit(store: Store, ws: seq<Write>)
    requires Translatable(ws)
    ensures BatchOps(ws).Some? && Apply(store, BatchOps(ws).value) == OneByOne(store, ws)
  {
    BatchTranslatable(ws);
    if ws != [] {
      BatchTranslatable(ws[..|ws| - 1]);
      GroupCommit(store, ws[..|ws| - 1]);
      ApplyConcat(store, BatchOps(ws[..|ws| - 1]).value, MessageOps(ws[|ws| - 1]).value);
    }
  }

  lemma {:induction false} OneByOneConcat(store: Store, a: seq<Write>, b: seq<Write>)
    requires Translatable(a) && Translatable(b)
    ensures Translatable(a + b) && OneByOne(store, a + b) == OneByOne(OneByOne(store, a), b)
    decreases |b|
  {
    if b == [] {
      assert a + b == a;
    } else {
      assert (a + b)[..|a + b| - 1] == a + b[..|b| - 1];
      OneByOneConcat(store, a, b[..|b| - 1]);
    }
  }

  // ----- what messages can and cannot do to the store

  ghost predicate OnlyInserts(ops: seq<Op>, p: Partition) {
    forall i :: 0 <= i < |ops| ==> ops[i].partition == p ==> ops[i].Insert?
  }

  lemma {:induction false} TimerOpsStayInTimers(instance: InstanceId, ops: seq<TimerOp>)
    ensures forall i :: 0 <= i < |TimerOpsOf(instance, ops)| ==> TimerOpsOf(instance, ops)[i].partition == Timers
  {
    if ops != [] {
      TimerOpsStayInTimers(instance, ops[..|ops| - 1]);
    }
  }

  predicate AppendOnly(p: Partition) {
    p == Events || p == Instances || p == Effects || p == Snapshots
  }

  lemma MessageOnlyInserts(w: Write, p: Partition)
    requires AppendOnly(p) && MessageOps(w).Some?
    ensures OnlyInserts(MessageOps(w).value, p)
  {
    if w.message.AtomicTransition? {
      TimerOpsStayInTimers(w.message.event.instance.value, w.message.timerOps);
    }
  }

  lemma {:induction false} ApplyKeepsInserted(store: Store, ops: seq<Op>, p: Partition, k: Key)
    requires OnlyInserts(ops, p) && (p, k) in store
    ensures (p, k) in Apply(store, ops)
  {
    if ops != [] {
      ApplyKeepsInserted(store, ops[..|ops| - 1], p, k);
      assert ops[|ops| - 1].partition == p ==> ops[|ops| - 1].Insert?;
    }
  }

  /** No sequence of messages removes a key from events, instances, effects or snapshots. */
  lemma {:induction false} AppendOnlyPartitions(store: Store, ws: seq<Write>, p: Partition, k: Key)
    requires Translatable(ws) && AppendOnly(p) && (p, k) in store
    ensures (p, k) in OneByOne(store, ws)
  {
    if ws != [] {
      AppendOnlyPartitions(store, ws[..|ws| - 1], p, k);
      MessageOnlyInserts(ws[|ws| - 1], p);
      ApplyKeepsInserted(OneByOne(store, ws[..|ws| - 1]), MessageOps(ws[|ws| - 1]).value, p, k);
    }
  }

  lemma {:induction false} ApplyElsewhere(store: Store, ops: seq<Op>, p: Partition, k: Key)
    requires forall i :: 0 <= i < |ops| ==> ops[i].partition != p
    ensures (p, k) in Apply(store, ops) <==> (p, k) in store
  {
    if ops != [] {
      ApplyElsewhere(store, ops[..|ops| - 1], p, k);
      assert ops[|ops| - 1].partition != p;
    }
  }

  /** Whether the last lease message for the pair was an acquire; `None` without one. */
  function LastLease(ws: seq<Write>, text: string, step: string): Option<bool> {
    if ws == [] then None
    else
      match ws[|ws| - 1].message
      case AcquireLease(i, s) =>
        if i.text == text && s == step then Some(true) else LastLease(ws[..|ws| - 1], text, step)
      case ReleaseLease(i, s) =>
        if i.text == text && s == step then Some(false) else LastLease(ws[..|ws| - 1], text, step)
      case _ => LastLease(ws[..|ws| - 1], text, step)
  }

  /** A message that is not about leases leaves the leases partition alone. */
  lemma NonLeaseMessage(store: Store, w: Write, k: Key)
    requires MessageOps(w).Some? && !w.message.AcquireLease? && !w.message.ReleaseLease?
    ensures (Leases, k) in Apply(store, MessageOps(w).value) <==> (Leases, k) in store
  {
    if w.message.AtomicTransition? {
      TimerOpsStayInTimers(w.message.event.instance.value, w.message.timerOps);
    }
    ApplyElsewhere(store, MessageOps(w).value, Leases, k);
  }

  lemma ApplySingle(store: Store, op: Op)
    ensures Apply(store, [op]) == ApplyOp(store, op)
  {
    assert [op][..0] == [];
  }

  /**
    A pair has a lease key if and only if its last lease message was an acquire, or it has had
    none and the key was there before.
   */
  lemma {:induction false} LeaseExactly(store: Store, ws: seq<Write>, i: InstanceId, step: string)
    requires Translatable(ws)
    ensures (Leases, LeaseKey(i, step)) in OneByOne(store, ws)
       <==> (|| LastLease(ws, i.text, step) == Some(true)
             || (LastLease(ws, i.text, step) == None && (Leases, LeaseKey(i, step)) in store))
  {
    if ws != [] {
      var front, w := ws[..|ws| - 1], ws[|ws| - 1];
      LeaseExactly(store, front, i, step);
      match w.message {
        case AcquireLease(i', s') =>
          LeaseKeyInjective(i, step, i', s');
          ApplySingle(OneByOne(store, front), Insert(Leases, LeaseKey(i', s'), []));
        case ReleaseLease(i', s') =>
          LeaseKeyInjective(i, step, i', s');
          ApplySingle(OneByOne(store, front), Remove(Leases, LeaseKey(i', s')));
        case _ =>
          NonLeaseMessage(OneByOne(store, front), w, LeaseKey(i, step));
      }
    }
  }

  /** The leases partition holds nothing but keys of pairs some message acquired. */
  lemma {:induction false} NoStrayLease(store: Store, ws: seq<Write>, k: Key)
    requires Translatable(ws) && (Leases, k) in OneByOne(store, ws) && (Leases, k) !in store
    ensures exists n :: 0 <= n < |ws| && ws[n].message.AcquireLease?
                     && k == LeaseKey(ws[n].message.instance, ws[n].message.step)
  {
    if ws != [] {
      var front, w := ws[..|ws| - 1], ws[|ws| - 1];
      if (Leases, k) in OneByOne(store, front) {
        NoStrayLease(store, front, k);
        var n :| 0 <= n < |front| && front[n].message.AcquireLease?
              && k == LeaseKey(front[n].message.instance, front[n].message.step);
        assert ws[n] == front[n];
      } else {
        match w.message {
          case AcquireLease(i', s') =>
            ApplySingle(OneByOne(store, front), Insert(Leases, LeaseKey(i', s'), []));
            assert ws[|ws| - 1].message.AcquireLease?;
          case ReleaseLease(i', s') =>
            ApplySingle(OneByOne(store, front), Remove(Leases, LeaseKey(i', s')));
          case _ =>
            NonLeaseMessage(OneByOne(store, front), w, k);
        }
      }
    }
  }

  // ----- timers: deletes look for fire time 0

  lemma {:induction false} TimerOpsKeepLateKeys(store: Store, instance: InstanceId, ops: seq<TimerOp>,
                                                f: Word, i: InstanceId, t: TimerId)
    requires f != 0 && (Timers, TimerKey(f, i, t)) in store
    ensures (Timers, TimerKey(f, i, t)) in Apply(store, TimerOpsOf(instance, ops))
  {
    if ops != [] {
      TimerOpsKeepLateKeys(store, instance, ops[..|ops| - 1], f, i, t);
      var done := TimerOpsOf(instance, ops[..|ops| - 1]);
      assert TimerOpsOf(instance, ops)[..|done|] == done;
      TimerKeyOrder(0, instance, ops[|ops| - 1].timer, f, i, t);
    }
  }

  lemma TransitionKeepsLateTimer(store: Store, w: Write, f: Word, i: InstanceId, t: TimerId)
    requires w.message.AtomicTransition? && MessageOps(w).Some? && f != 0 && (Timers, TimerKey(f, i, t)) in store
    ensures (Timers, TimerKey(f, i, t)) in Apply(store, MessageOps(w).value)
  {
    var m := w.message;
    var instance := m.event.instance.value;
    var ops := MessageOps(w).value;
    var timers := TimerOpsOf(instance, m.timerOps);
    var head := [Insert(Events, EventKey(instance, m.event.sequence), m.event.body)]
      + (if m.status.Some? then [Insert(Instances, InstanceIndexKey(m.status.value, w.now, instance), [])] else []);
    var tail := ops[|head| + |timers|..];
    assert ops == head + timers + tail;
    assert OnlyInserts(head, Timers) && OnlyInserts(tail, Timers);
    ApplyConcat(store, head + timers, tail);
    ApplyConcat(store, head, timers);
    ApplyKeepsInserted(store, head, Timers, TimerKey(f, i, t));
    TimerOpsKeepLateKeys(Apply(store, head), instance, m.timerOps, f, i, t);
    ApplyKeepsInserted(Apply(store, head + timers), tail, Timers, TimerKey(f, i, t));
  }

  lemma MessageKeepsLateTimer(store: Store, w: Write, f: Word, i: InstanceId, t: TimerId)
    requires MessageOps(w).Some? && f != 0 && (Timers, TimerKey(f, i, t)) in store
    ensures (Timers, TimerKey(f, i, t)) in Apply(store, MessageOps(w).value)
  {
    match w.message
    case DeleteTimer(i', t') =>
      TimerKeyOrder(0, i', t', f, i, t);
      ApplySingle(store, Remove(Timers, TimerKey(0, i', t')));
    case AtomicTransition(_, _, _, _) =>
      TransitionKeepsLateTimer(store, w, f, i, t);
    case _ =>
      ApplyKeepsInserted(store, MessageOps(w).value, Timers, TimerKey(f, i, t));
  }

  /** A timer stored with a nonzero fire time stays, whatever messages follow, deletes included. */
  lemma {:induction false} LateTimersAreNeverDeleted(store: Store, ws: seq<Write>, f: Word, i: InstanceId, t: TimerId)
    requires Translatable(ws) && f != 0 && (Timers, TimerKey(f, i, t)) in store
    ensures (Timers, TimerKey(f, i, t)) in OneByOne(store, ws)
  {
    if ws != [] {
      LateTimersAreNeverDeleted(store, ws[..|ws| - 1], f, i, t);
      MessageKeepsLateTimer(OneByOne(store, ws[..|ws| - 1]), ws[|ws| - 1], f, i, t);
    }
  }

  lemma OneMessage(store: Store, w: Write)
    requires MessageOps(w).Some?
    ensures OneByOne(store, [w]) == Apply(store, MessageOps(w).value)
  {
    var ws := [w];
    assert ws[..|ws| - 1] == [];
    assert OneByOne(store, ws) == Apply(OneByOne(store, []), MessageOps(ws[|ws| - 1]).value);
  }

  /** Deleting a timer undoes its upsert if and only if the upsert had fire time 0. */
  lemma DeleteUndoesUpsertExactly(store: Store, i: InstanceId, t: TimerId, f: Word, now: Word)
    requires (Timers, TimerKey(f, i, t)) !in store
    ensures var ws := [Write(UpsertTimer(i, t, f), now), Write(DeleteTimer(i, t), now)];
            && Translatable(ws) && (OneByOne(store, ws) == store <==> f == 0)
            && ((Timers, TimerKey(f, i, t)) !in OneByOne(store, ws) <==> f == 0)
  {
    var up, down := Write(UpsertTimer(i, t, f), now), Write(DeleteTimer(i, t), now);
    var ws, key, gone := [up, down], (Timers, TimerKey(f, i, t)), (Timers, TimerKey(0, i, t));
    assert ws[..1] == [up] && [up][..0] == [];
    ApplySingle(store, Insert(Timers, key.1, []));
    var mid := OneByOne(store, [up]);
    OneMessage(store, up);
    assert mid == store[key := []];
    ApplySingle(mid, Remove(Timers, gone.1));
    assert OneByOne(store, ws) == Apply(mid, MessageOps(down).value) == mid - {gone};
    TimerKeyOrder(0, i, t, f, i, t);
    if f == 0 {
      assert store[key := []] - {key} == store;
    }
  }
}
