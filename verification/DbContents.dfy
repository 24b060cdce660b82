/**
  What the database holds after any messages: `crates/vo-actor/src/db_writer.rs:349-591`.

  A record is one thing the writer keeps under one key. `ChangeBy` says in terms of records what
  each message does; the store after any sequence of messages holds, for every record, what the
  last message about it left, and nothing else changes.
 */
module DbContents {
  import opened Keys
  import opened DbWriter
  import opened Options

  type Intent = s: string | |s| + 28 < 0x1_0000

  datatype Record =
    | EventRecord(instance: InstanceId, sequence: Word)
    | StatusRecord(status: int, at: Word, instance: InstanceId)
    | LeaseRecord(instance: InstanceId, step: string)
    | TimerRecord(fireAt: Word, instance: InstanceId, timer: TimerId)
    | EffectRecord(intent: Intent)
    | SnapshotRecord(instance: InstanceId, sequence: Word)

  function KeyOf(r: Record): (Partition, Key) {
    match r
    case EventRecord(i, n) => (Events, EventKey(i, n))
    case StatusRecord(s, at, i) => (Instances, InstanceIndexKey(s, at, i))
    case LeaseRecord(i, step) => (Leases, LeaseKey(i, step))
    case TimerRecord(f, i, t) => (Timers, TimerKey(f, i, t))
    case EffectRecord(intent) => (Effects, EffectKey(intent))
    case SnapshotRecord(i, n) => (Snapshots, SnapshotKey(i, n))
  }

  /** The same record; lease keys hold the printed instance id, all others its bytes. */
  predicate SameRecord(a: Record, b: Record) {
    match (a, b)
    case (EventRecord(i, n), EventRecord(j, m)) => i.bytes == j.bytes && n == m
    case (StatusRecord(s, x, i), StatusRecord(s', y, j)) => s == s' && x == y && i.bytes == j.bytes
    case (LeaseRecord(i, s), LeaseRecord(j, s')) => i.text == j.text && s == s'
    case (TimerRecord(f, i, t), TimerRecord(g, j, u)) => f == g && i.bytes == j.bytes && t == u
    case (EffectRecord(x), EffectRecord(y)) => x == y
    case (SnapshotRecord(i, n), SnapshotRecord(j, m)) => i.bytes == j.bytes && n == m
    case _ => false
  }

  /** No two records share a key. */
  lemma KeysTellRecords(a: Record, b: Record)
    ensures KeyOf(a) == KeyOf(b) <==> SameRecord(a, b)
  {
    match (a, b)
    case (EventRecord(i, n), EventRecord(j, m)) => EventKeyOrder(i, n, j, m);
    case (StatusRecord(s, x, i), StatusRecord(s', y, j)) => InstanceIndexKeyOrder(s, x, i, s', y, j);
    case (LeaseRecord(i, s), LeaseRecord(j, s')) => LeaseKeyInjective(i, s, j, s');
    case (TimerRecord(f, i, t), TimerRecord(g, j, u)) => TimerKeyOrder(f, i, t, g, j, u);
    case (EffectRecord(x), EffectRecord(y)) => EffectKeyInjective(x, y);
    case (SnapshotRecord(i, n), SnapshotRecord(j, m)) => SnapshotKeyOrder(i, n, j, m);
    case _ =>
  }

  // ----- changes

  datatype Change = Keeps | Puts(value: Key) | Deletes

  function Then(first: Change, next: Change): Change {
    if next.Keeps? then first else next
  }

  function At(store: Store, k: (Partition, Key)): Option<Key> {
    if k in store then Some(store[k]) else None
  }

  function Changed(was: Option<Key>, c: Change): Option<Key> {
    match c
    case Keeps => was
    case Puts(v) => Some(v)
    case Deletes => None
  }

  function PutIf(hit: bool, value: Key): Change {
    if hit then Puts(value) else Keeps
  }

  /** What the timer operations of a transition do to one timer of its instance: the last one about
      it counts, and a delete is only about fire time 0. */
  function TimersChange(ops: seq<TimerOp>, f: Word, t: TimerId): Change {
    if ops == [] then Keeps
    else
      match ops[|ops| - 1]
      case Upsert(u, g) => if u == t && g == f then Puts([]) else TimersChange(ops[..|ops| - 1], f, t)
      case Delete(u) => if u == t && f == 0 then Deletes else TimersChange(ops[..|ops| - 1], f, t)
  }

  /** What a transition of the instance with these bytes does to a record. */
  function TransitionChange(m: Message, bytes: Key, now: Word, r: Record): Change
    requires m.AtomicTransition?
  {
    match r
    case EventRecord(i, n) => PutIf(i.bytes == bytes && n == m.event.sequence, m.event.body)
    case StatusRecord(s, at, i) => PutIf(m.status == Some(s) && at == now && i.bytes == bytes, [])
    case TimerRecord(f, i, t) => if i.bytes == bytes then TimersChange(m.timerOps, f, t) else Keeps
    case SnapshotRecord(i, n) =>
      if m.snapshot.Some? then PutIf(i.bytes == bytes && n == m.snapshot.value.sequence, m.snapshot.value.body)
      else Keeps
    case LeaseRecord(_, _) => Keeps
    case EffectRecord(_) => Keeps
  }

  /** What a message does to a record. An unknown status byte counts as 2, running. */
  function ChangeBy(w: Write, r: Record): Change {
    match w.message
    case AppendEvent(i, n) => PutIf(r.EventRecord? && r.instance.bytes == i.bytes && r.sequence == n, [])
    case RecordInstanceStatus(i, b) =>
      PutIf(&& r.StatusRecord? && r.instance.bytes == i.bytes && r.at == w.now
            && r.status == (if b in {1, 2, 3, 4, 5, 6} then b else 2), [])
    case AcquireLease(i, s) => PutIf(r.LeaseRecord? && r.instance.text == i.text && r.step == s, [])
    case ReleaseLease(i, s) =>
      if r.LeaseRecord? && r.instance.text == i.text && r.step == s then Deletes else Keeps
    case UpsertTimer(i, t, f) =>
      PutIf(r.TimerRecord? && r.instance.bytes == i.bytes && r.timer == t && r.fireAt == f, [])
    case DeleteTimer(i, t) =>
      if r.TimerRecord? && r.instance.bytes == i.bytes && r.timer == t && r.fireAt == 0 then Deletes else Keeps
    case RecordEffect(intent, record) => PutIf(r.EffectRecord? && r.intent == intent, record)
    case TakeSnapshot(i, n, body) =>
      PutIf(r.SnapshotRecord? && r.instance.bytes == i.bytes && r.sequence == n, body)
    case AtomicTransition(_, _, _, event) =>
      if event.instance.None? then Keeps else TransitionChange(w.message, event.instance.value.bytes, w.now, r)
  }

  /** The change the last message about a record makes. */
  function LastChange(ws: seq<Write>, r: Record): Change {
    if ws == [] then Keeps else Then(LastChange(ws[..|ws| - 1], r), ChangeBy(ws[|ws| - 1], r))
  }

  // ----- operations and the changes they make

  function OpChange(op: Op, k: (Partition, Key)): Change {
    if (op.partition, op.key) != k then Keeps else if op.Insert? then Puts(op.value) else Deletes
  }

  function OpsChange(ops: seq<Op>, k: (Partition, Key)): Change {
    if ops == [] then Keeps else Then(OpsChange(ops[..|ops| - 1], k), OpChange(ops[|ops| - 1], k))
  }

  lemma {:induction false} ApplyChanges(store: Store, ops: seq<Op>, k: (Partition, Key))
    ensures At(Apply(store, ops), k) == Changed(At(store, k), OpsChange(ops, k))
  {
    if ops != [] {
      ApplyChanges(store, ops[..|ops| - 1], k);
    }
  }

  lemma {:induction false} OpsChangeConcat(a: seq<Op>, b: seq<Op>, k: (Partition, Key))
    ensures OpsChange(a + b, k) == Then(OpsChange(a, k), OpsChange(b, k))
    decreases |b|
  {
    if b == [] {
      assert a + b == a;
    } else {
      assert (a + b)[..|a + b| - 1] == a + b[..|b| - 1];
      OpsChangeConcat(a, b[..|b| - 1], k);
    }
  }

  lemma OneOp(op: Op, k: (Partition, Key))
    ensures OpsChange([op], k) == OpChange(op, k)
  {
    assert [op][..0] == [];
  }

  /** Storing record `s` changes exactly the records that are the same. */
  lemma InsertChange(s: Record, value: Key, r: Record)
    ensures OpsChange([Insert(KeyOf(s).0, KeyOf(s).1, value)], KeyOf(r)) == PutIf(SameRecord(s, r), value)
  {
    KeysTellRecords(s, r);
    OneOp(Insert(KeyOf(s).0, KeyOf(s).1, value), KeyOf(r));
  }

  lemma RemoveChange(s: Record, r: Record)
    ensures OpsChange([Remove(KeyOf(s).0, KeyOf(s).1)], KeyOf(r)) == if SameRecord(s, r) then Deletes else Keeps
  {
    KeysTellRecords(s, r);
    OneOp(Remove(KeyOf(s).0, KeyOf(s).1), KeyOf(r));
  }

  lemma {:induction false} TimerOpsChange(instance: InstanceId, ops: seq<TimerOp>, r: Record)
    ensures OpsChange(TimerOpsOf(instance, ops), KeyOf(r))
         == if r.TimerRecord? && r.instance.bytes == instance.bytes then TimersChange(ops, r.fireAt, r.timer) else Keeps
  {
    if ops != [] {
      var front, last := ops[..|ops| - 1], ops[|ops| - 1];
      TimerOpsChange(instance, front, r);
      OpsChangeConcat(TimerOpsOf(instance, front), [TimerOpOf(instance, last)], KeyOf(r));
      match last {
        case Upsert(t, f) => InsertChange(TimerRecord(f, instance, t), [], r);
        case Delete(t) => RemoveChange(TimerRecord(0, instance, t), r);
      }
    }
  }

  lemma TransitionChanges(m: Message, instance: InstanceId, now: Word, r: Record)
    requires m.AtomicTransition?
    ensures OpsChange(TransitionOps(m, instance, now), KeyOf(r)) == TransitionChange(m, instance.bytes, now, r)
  {
    var k := KeyOf(r);
    var event := [Insert(Events, EventKey(instance, m.event.sequence), m.event.body)];
    var status :=
      if m.status.Some? then [Insert(Instances, InstanceIndexKey(m.status.value, now, instance), [])] else [];
    var timers := TimerOpsOf(instance, m.timerOps);
    var snapshot :=
      if m.snapshot.Some?
      then [Insert(Snapshots, SnapshotKey(instance, m.snapshot.value.sequence), m.snapshot.value.body)]
      else [];
    OpsChangeConcat(event + status + timers, snapshot, k);
    OpsChangeConcat(event + status, timers, k);
    OpsChangeConcat(event, status, k);
    InsertChange(EventRecord(instance, m.event.sequence), m.event.body, r);
    if m.status.Some? {
      InsertChange(StatusRecord(m.status.value, now, instance), [], r);
    }
    TimerOpsChange(instance, m.timerOps, r);
    if m.snapshot.Some? {
      InsertChange(SnapshotRecord(instance, m.snapshot.value.sequence), m.snapshot.value.body, r);
    }
  }

  lemma LeaseOrTimerChange(w: Write, r: Record)
    requires w.message.AcquireLease? || w.message.ReleaseLease? || w.message.UpsertTimer? || w.message.DeleteTimer?
    ensures OpsChange(MessageOps(w).value, KeyOf(r)) == ChangeBy(w, r)
  {
    match w.message
    case AcquireLease(i, s) => InsertChange(LeaseRecord(i, s), [], r);
    case ReleaseLease(i, s) => RemoveChange(LeaseRecord(i, s), r);
    case UpsertTimer(i, t, f) => InsertChange(TimerRecord(f, i, t), [], r);
    case DeleteTimer(i, t) => RemoveChange(TimerRecord(0, i, t), r);
  }

  /** The operations of a message do to every record what the message is for. */
  lemma MessageChange(w: Write, r: Record)
    requires MessageOps(w).Some?
    ensures OpsChange(MessageOps(w).value, KeyOf(r)) == ChangeBy(w, r)
  {
    match w.message
    case AppendEvent(i, n) => InsertChange(EventRecord(i, n), [], r);
    case RecordInstanceStatus(i, b) => InsertChange(StatusRecord(StatusOf(b), w.now, i), [], r);
    case RecordEffect(intent, record) => InsertChange(EffectRecord(intent), record, r);
    case TakeSnapshot(i, n, body) => InsertChange(SnapshotRecord(i, n), body, r);
    case AtomicTransition(_, _, _, event) => TransitionChanges(w.message, event.instance.value, w.now, r);
    case _ => LeaseOrTimerChange(w, r);
  }

  /** Operations that do to every record what the message is for. */
  ghost predicate Realizes(ops: seq<Op>, w: Write) {
    forall r: Record :: OpsChange(ops, KeyOf(r)) == ChangeBy(w, r)
  }

  lemma MessageRealized(w: Write)
    requires MessageOps(w).Some?
    ensures Realizes(MessageOps(w).value, w)
  {
    forall r: Record
      ensures OpsChange(MessageOps(w).value, KeyOf(r)) == ChangeBy(w, r)
    {
      MessageChange(w, r);
    }
  }

  /** After any messages, every record is as the last message about it left it. */
  lemma {:induction false} StoreExactly(store: Store, ws: seq<Write>, r: Record)
    requires Translatable(ws)
    ensures At(OneByOne(store, ws), KeyOf(r)) == Changed(At(store, KeyOf(r)), LastChange(ws, r))
  {
    if ws != [] {
      var front, w := ws[..|ws| - 1], ws[|ws| - 1];
      StoreExactly(store, front, r);
      ApplyChanges(OneByOne(store, front), MessageOps(w).value, KeyOf(r));
      MessageChange(w, r);
    }
  }

  // ----- nothing but records

  ghost predicate IsRecordKey(k: (Partition, Key)) {
    exists r: Record :: KeyOf(r) == k
  }

  ghost predicate OnlyRecords(ops: seq<Op>) {
    forall n :: 0 <= n < |ops| ==> IsRecordKey((ops[n].partition, ops[n].key))
  }

  lemma KeyOfIsRecordKey(r: Record)
    ensures IsRecordKey(KeyOf(r))
  {
  }

  lemma {:induction false} TimerOpsOnlyRecords(instance: InstanceId, ops: seq<TimerOp>)
    ensures OnlyRecords(TimerOpsOf(instance, ops))
  {
    if ops != [] {
      TimerOpsOnlyRecords(instance, ops[..|ops| - 1]);
      match ops[|ops| - 1] {
        case Upsert(t, f) => KeyOfIsRecordKey(TimerRecord(f, instance, t));
        case Delete(t) => KeyOfIsRecordKey(TimerRecord(0, instance, t));
      }
    }
  }

  lemma TransitionOnlyRecords(m: Message, instance: InstanceId, now: Word)
    requires m.AtomicTransition?
    ensures OnlyRecords(TransitionOps(m, instance, now))
  {
    TimerOpsOnlyRecords(instance, m.timerOps);
    KeyOfIsRecordKey(EventRecord(instance, m.event.sequence));
    if m.status.Some? {
      KeyOfIsRecordKey(StatusRecord(m.status.value, now, instance));
    }
    if m.snapshot.Some? {
      KeyOfIsRecordKey(SnapshotRecord(instance, m.snapshot.value.sequence));
    }
  }

  lemma MessageOnlyRecords(w: Write)
    requires MessageOps(w).Some?
    ensures OnlyRecords(MessageOps(w).value)
  {
    match w.message
    case AppendEvent(i, n) => KeyOfIsRecordKey(EventRecord(i, n));
    case RecordInstanceStatus(i, b) => KeyOfIsRecordKey(StatusRecord(StatusOf(b), w.now, i));
    case AcquireLease(i, s) => KeyOfIsRecordKey(LeaseRecord(i, s));
    case ReleaseLease(i, s) => KeyOfIsRecordKey(LeaseRecord(i, s));
    case UpsertTimer(i, t, f) => KeyOfIsRecordKey(TimerRecord(f, i, t));
    case DeleteTimer(i, t) => KeyOfIsRecordKey(TimerRecord(0, i, t));
    case RecordEffect(intent, record) => KeyOfIsRecordKey(EffectRecord(intent));
    case TakeSnapshot(i, n, body) => KeyOfIsRecordKey(SnapshotRecord(i, n));
    case AtomicTransition(_, _, _, event) => TransitionOnlyRecords(w.message, event.instance.value, w.now);
  }

  lemma {:induction false} OpsElsewhere(ops: seq<Op>, k: (Partition, Key))
    requires OnlyRecords(ops) && !IsRecordKey(k)
    ensures OpsChange(ops, k) == Keeps
  {
    if ops != [] {
      OpsElsewhere(ops[..|ops| - 1], k);
      assert IsRecordKey((ops[|ops| - 1].partition, ops[|ops| - 1].key));
    }
  }

  /** No message touches a key that is not a record's. */
  lemma {:induction false} StoreElsewhere(store: Store, ws: seq<Write>, k: (Partition, Key))
    requires Translatable(ws) && !IsRecordKey(k)
    ensures At(OneByOne(store, ws), k) == At(store, k)
  {
    if ws != [] {
      var front, w := ws[..|ws| - 1], ws[|ws| - 1];
      StoreElsewhere(store, front, k);
      ApplyChanges(OneByOne(store, front), MessageOps(w).value, k);
      MessageOnlyRecords(w);
      OpsElsewhere(MessageOps(w).value, k);
    }
  }
}
