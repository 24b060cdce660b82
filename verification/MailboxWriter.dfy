/**
  The code of the mailbox actor: `crates/vo-actor/src/db_writer.rs:216-338,349-591,629-635`.

  The drain loop, the batch translation and the acknowledgements are proved against the
  protocol of `Mailbox`, with the writes of `DbWriter`; the store is always what one commit per
  durable message would have left.
 */
module MailboxWriter {
  import opened Keys
  import opened Mailbox
  import opened DbWriter
  import opened DbContents
  import opened Options

  class WriteBatchBuilder {
    var ops: seq<Op>

    constructor ()
      ensures ops == []
    {
      ops := [];
    }

    /**
      `apply_message_to_batch`: panics on an effect whose intent is empty or too long for its length
      prefix and on a transition whose event has no valid instance or sequence number; otherwise
      appends operations that do to every record what the message is for.
     */
    method ApplyMessage(w: Write) returns (panicked: bool)
      modifies this
      ensures panicked <==> match w.message
                            case RecordEffect(intent, _) => intent == "" || |intent| + 28 >= 0x1_0000
                            case AtomicTransition(_, _, _, e) => e.instance.None? || e.sequence == 0
                            case _ => false
      ensures panicked <==> MessageOps(w).None?
      ensures !panicked ==> ops == old(ops) + MessageOps(w).value && Realizes(MessageOps(w).value, w)
    {
      if MessageOps(w).Some? {
        MessageRealized(w);
      }
      panicked := false;
      match w.message
      case AppendEvent(i, n) =>
        ops := ops + [Insert(Events, EventKey(i, n), [])];
      case RecordInstanceStatus(i, b) =>
        ops := ops + [Insert(Instances, InstanceIndexKey(StatusOf(b), w.now, i), [])];
      case AcquireLease(i, s) =>
        ops := ops + [Insert(Leases, LeaseKey(i, s), [])];
      case ReleaseLease(i, s) =>
        ops := ops + [Remove(Leases, LeaseKey(i, s))];
      case UpsertTimer(i, t, f) =>
        ops := ops + [Insert(Timers, TimerKey(f, i, t), [])];
      case DeleteTimer(i, t) =>
        ops := ops + [Remove(Timers, TimerKey(0, i, t))];
      case RecordEffect(intent, record) =>
        if intent == "" || |intent| + 28 >= 0x1_0000 {
          return true;
        }
        ops := ops + [Insert(Effects, EffectKey(intent), record)];
      case TakeSnapshot(i, n, body) =>
        ops := ops + [Insert(Snapshots, SnapshotKey(i, n), body)];
      case AtomicTransition(status, timerOps, snapshot, event) =>
        panicked := ApplyTransition(w);
    }

    method ApplyTimerOps(instance: InstanceId, timerOps: seq<TimerOp>)
      modifies this
      ensures ops == old(ops) + TimerOpsOf(instance, timerOps)
    {
      for k := 0 to |timerOps|
        invariant ops == old(ops) + TimerOpsOf(instance, timerOps[..k])
      {
        match timerOps[k] {
          case Upsert(timer, fireAt) =>
            ops := ops + [Insert(Timers, TimerKey(fireAt, instance, timer), [])];
          case Delete(timer) =>
            ops := ops + [Remove(Timers, TimerKey(0, instance, timer))];
        }
        assert timerOps[..k + 1][..k] == timerOps[..k];
      }
      assert timerOps[..|timerOps|] == timerOps;
    }

    method ApplyTransition(w: Write) returns (panicked: bool)
      requires w.message.AtomicTransition?
      modifies this
      ensures panicked <==> MessageOps(w).None?
      ensures !panicked ==> ops == old(ops) + MessageOps(w).value
    {
      var m := w.message;
      if m.event.instance.None? || m.event.sequence == 0 {
        return true;
      }
      panicked := false;
      var instance := m.event.instance.value;
      ops := ops + [Insert(Events, EventKey(instance, m.event.sequence), m.event.body)];
      if m.status.Some? {
        ops := ops + [Insert(Instances, InstanceIndexKey(m.status.value, w.now, instance), [])];
      }
      ApplyTimerOps(instance, m.timerOps);
      if m.snapshot.Some? {
        ops := ops + [Insert(Snapshots, SnapshotKey(instance, m.snapshot.value.sequence), m.snapshot.value.body)];
      }
      assert !panicked ==> ops == old(ops) + TransitionOps(m, instance, w.now);
    }
  }

  class DbWriterActor {
    ghost const initial: Store
    var store: Store
    var mailbox: seq<Request<Write>>
    var total: nat
    var trace: Trace<Write>

    ghost function View(): Books<Write>
      reads this
    {
      Books(mailbox, total, trace)
    }

    /** The store is what one commit per durable message, in order, would have left. */
    ghost predicate Valid()
      reads this
    {
      Translatable(Durable(trace)) && store == OneByOne(initial, Durable(trace))
    }

    constructor (contents: Store)
      ensures Valid() && initial == contents && View() == NewBooks()
    {
      initial := contents;
      store, mailbox, total, trace := contents, [], 0, Start;
    }

    /** `commit_batch` (and `commit_single`): all messages become durable together, or none. */
    method CommitBatch(ws: seq<Write>, ok: bool) returns (done: bool)
      requires Valid() && |ws| > 0
      modifies this`store, this`trace
      ensures Valid()
      ensures done <==> ok && Translatable(ws)
      ensures trace == if done then Committed(old(trace), ws) else old(trace)
    {
      var batch := new WriteBatchBuilder();
      for k := 0 to |ws|
        invariant Valid() && trace == old(trace)
        invariant fresh(batch) && BatchOps(ws[..k]) == Some(batch.ops)
      {
        var panicked := batch.ApplyMessage(ws[k]);
        assert ws[..k + 1][..k] == ws[..k];
        if panicked {
          return false;
        }
      }
      assert ws[..|ws|] == ws;
      BatchTranslatable(ws);
      if !ok {
        return false;
      }
      GroupCommit(store, ws);
      OneByOneConcat(initial, Durable(trace), ws);
      CatIsConcat(Durable(trace), ws);
      store := Apply(store, batch.ops);
      trace := Committed(trace, ws);
      done := true;
    }

    method SendAck(reply: Option<nat>, count: nat)
      requires Valid()
      modifies this`trace
      ensures Valid()
      ensures trace == AckTo(old(trace), reply, count)
    {
      if reply.Some? {
        trace := Acked(trace, Ack(reply.value, count));
      }
    }

    method HandleWrite(write: Write, reply: Option<nat>, commitOk: bool) returns (ok: bool)
      requires Valid()
      modifies this`store, this`trace, this`total
      ensures Valid() && (ok <==> DirectOk(Translatable, WriteOne(write, reply), commitOk))
      ensures ok <==> commitOk && MessageOps(write).Some?
      ensures trace == if ok then AckTo(Committed(old(trace), [write]), reply, 1) else old(trace)
      ensures total == if ok then old(total) + 1 else old(total)
      ensures View() == if ok then Answer(old(View()), [WriteOne(write, reply)]) else old(View())
    {
      AnswerOne(View(), WriteOne(write, reply));
      ok := CommitBatch([write], commitOk);
      if ok {
        total := total + 1;
        SendAck(reply, 1);
      }
    }

    method HandleWriteBatch(writes: seq<Write>, reply: Option<nat>, commitOk: bool) returns (ok: bool)
      requires Valid()
      modifies this`store, this`trace, this`total
      ensures Valid() && (ok <==> DirectOk(Translatable, WriteBatch(writes, reply), commitOk))
      ensures ok <==> |writes| == 0 || (commitOk && Translatable(writes))
      ensures trace == if ok then AckTo(CommitTo(old(trace), writes), reply, |writes|) else old(trace)
      ensures total == if ok then old(total) + |writes| else old(total)
      ensures View() == if ok then Answer(old(View()), [WriteBatch(writes, reply)]) else old(View())
    {
      AnswerOne(View(), WriteBatch(writes, reply));
      ok := true;
      if |writes| > 0 {
        ok := CommitBatch(writes, commitOk);
        if !ok {
          return;
        }
        total := total + |writes|;
      }
      SendAck(reply, |writes|);
    }

    /** The drain loop: empties the mailbox into one batch, with the replies and counts beside it. */
    method Drain() returns (batch: seq<Write>, replies: seq<Option<nat>>, counts: seq<nat>)
      modifies this`mailbox
      ensures mailbox == [] && batch == AllWrites(old(mailbox))
      ensures |replies| == |counts| == |old(mailbox)|
      ensures forall k :: 0 <= k < |replies| ==>
        replies[k] == old(mailbox)[k].reply && counts[k] == |WritesOf(old(mailbox)[k])|
    {
      ghost var waiting := mailbox;
      batch, replies, counts := [], [], [];
      while |mailbox| > 0
        invariant |replies| == |counts| <= |waiting| && mailbox == waiting[|replies|..]
        invariant batch == WritesUpTo(waiting, |replies|)
        invariant forall k :: 0 <= k < |replies| ==>
          replies[k] == waiting[k].reply && counts[k] == |WritesOf(waiting[k])|
        decreases |mailbox|
      {
        var msg := mailbox[0];
        CatIsConcat(batch, WritesOf(msg));
        mailbox := mailbox[1..];
        match msg {
          case WriteOne(write, reply) =>
            batch := batch + [write];
            replies := replies + [reply];
            counts := counts + [1];
          case WriteBatch(writes, reply) =>
            batch := batch + writes;
            replies := replies + [reply];
            counts := counts + [|writes|];
        }
      }
    }

    method SendAcks(replies: seq<Option<nat>>, counts: seq<nat>, ghost rs: seq<Request<Write>>)
      requires |replies| == |counts| == |rs|
      requires forall k :: 0 <= k < |rs| ==> replies[k] == rs[k].reply && counts[k] == |WritesOf(rs[k])|
      requires Valid()
      modifies this`trace
      ensures Valid()
      ensures trace == AckEach(old(trace), rs)
    {
      for k := 0 to |replies|
        invariant Valid() && trace == AckUpTo(old(trace), rs, k)
      {
        assert replies[k] == rs[k].reply && counts[k] == |WritesOf(rs[k])|;
        SendAck(replies[k], counts[k]);
      }
    }

    /** Drains the mailbox, commits everything drained as one batch and acknowledges each request. */
    method HandleDrain(drainOk: bool) returns (ok: bool)
      requires Valid()
      modifies this
      ensures Valid() && (ok <==> DrainOk(Translatable, old(mailbox), drainOk))
      ensures mailbox == [] && (ok <==> Goes(Translatable, AllWrites(old(mailbox)), drainOk))
      ensures View() == if ok && |AllWrites(old(mailbox))| > 0
                        then Answer(old(View()).(mailbox := []), old(mailbox))
                        else old(View()).(mailbox := [])
    {
      ghost var waiting := mailbox;
      var drainBatch, drainReplies, drainCounts := Drain();
      ok := true;
      if |drainBatch| > 0 {
        ok := CommitBatch(drainBatch, drainOk);
        if !ok {
          return;
        }
        total := total + |drainBatch|;
        SendAcks(drainReplies, drainCounts, waiting);
      }
    }

    method Handle(first: Request<Write>, commitOk: bool, drainOk: bool) returns (ok: bool)
      requires Valid()
      modifies this
      ensures Valid()
      ensures (View(), ok) == Handled(Translatable, old(View()), first, commitOk, drainOk)
      ensures ok <==> Goes(Translatable, WritesOf(first), commitOk)
                      && Goes(Translatable, AllWrites(old(mailbox)), drainOk)
    {
      match first {
        case WriteOne(write, reply) => ok := HandleWrite(write, reply, commitOk);
        case WriteBatch(writes, reply) => ok := HandleWriteBatch(writes, reply, commitOk);
      }
      if ok {
        ok := HandleDrain(drainOk);
      }
    }
  }

  // ----- the store over every run

  lemma AnswerTranslatable(b: Books<Write>, rs: seq<Request<Write>>)
    requires Translatable(Durable(b.trace)) && Translatable(AllWrites(rs))
    ensures Translatable(Durable(Answer(b, rs).trace))
  {
    AckUpToDurable(CommitTo(b.trace, AllWrites(rs)), rs, |rs|);
    CatIsConcat(Durable(b.trace), AllWrites(rs));
  }

  lemma TurnTranslatable(b: Books<Write>, t: Turn<Write>)
    requires Translatable(Durable(b.trace))
    ensures Translatable(Durable(TurnResult(Translatable, b, t).0.trace))
  {
    var waiting := b.mailbox + t.arrived;
    if DirectOk(Translatable, t.first, t.commitOk) {
      SingleRequest(t.first, b.trace);
      AnswerTranslatable(b, [t.first]);
      if DrainOk(Translatable, waiting, t.drainOk) && |AllWrites(waiting)| > 0 {
        AnswerTranslatable(Answer(b, [t.first]), waiting);
      }
    }
  }

  lemma {:induction false} RunTranslatable(b: Books<Write>, rs: seq<Request<Write>>, turns: seq<Turn<Write>>)
    requires Translatable(Durable(b.trace))
    ensures Translatable(Durable(Run(Translatable, b, rs, turns).0.trace))
    decreases |turns|
  {
    if turns != [] {
      TurnTranslatable(b, turns[0]);
      var (next, ok) := TurnResult(Translatable, b, turns[0]);
      RunTranslatable(next, rs + Answered(Translatable, b, turns[0]), if ok then turns[1..] else []);
    }
  }

  /** The store after any run of a new actor, by `DbWriterActor.Valid`. */
  function StoreAfter(initial: Store, turns: seq<Turn<Write>>): Store {
    RunTranslatable(NewBooks(), [], turns);
    OneByOne(initial, Durable(Run(Translatable, NewBooks(), [], turns).0.trace))
  }

  /** The requests any run of a new actor answers. */
  function AnsweredBy(turns: seq<Turn<Write>>): seq<Request<Write>> {
    Run(Translatable, NewBooks(), [], turns).1
  }

  /** A run none of whose turns fails stores every message sent, as one commit each would, in order. */
  lemma RunStoresAll(initial: Store, turns: seq<Turn<Write>>)
    requires NoneFails(Translatable, turns)
    ensures var ws := AllWrites(Sent(turns)); Translatable(ws) && StoreAfter(initial, turns) == OneByOne(initial, ws)
  {
    RunDurable(Translatable, NewBooks(), [], turns);
    RunTranslatable(NewBooks(), [], turns);
  }

  /** Over every run, every record is as the last answered message about it left it. */
  lemma RunStoreExactly(initial: Store, turns: seq<Turn<Write>>, r: Record)
    ensures At(StoreAfter(initial, turns), KeyOf(r))
         == Changed(At(initial, KeyOf(r)), LastChange(AllWrites(AnsweredBy(turns)), r))
  {
    RunTranslatable(NewBooks(), [], turns);
    RunAccounts(Translatable, turns);
    StoreExactly(initial, AllWrites(AnsweredBy(turns)), r);
  }

  /** Over every run, the leases partition tells the last answered lease message of every pair. */
  lemma RunLeases(initial: Store, turns: seq<Turn<Write>>, i: InstanceId, step: string)
    requires forall k :: (Leases, k) !in initial
    ensures (Leases, LeaseKey(i, step)) in StoreAfter(initial, turns)
       <==> LastLease(AllWrites(AnsweredBy(turns)), i.text, step) == Some(true)
  {
    RunTranslatable(NewBooks(), [], turns);
    RunAccounts(Translatable, turns);
    LeaseExactly(initial, AllWrites(AnsweredBy(turns)), i, step);
  }

  /** What the leases partition should hold: the pairs whose last answered lease message was an acquire. */
  ghost predicate Leased(turns: seq<Turn<Write>>, i: InstanceId, step: string) {
    LastLease(AllWrites(AnsweredBy(turns)), i.text, step) == Some(true)
  }

  /** Over every run, the leases partition holds exactly the keys of those pairs. */
  lemma RunLeasesExactly(initial: Store, turns: seq<Turn<Write>>, k: Key)
    requires forall k :: (Leases, k) !in initial
    ensures (Leases, k) in StoreAfter(initial, turns)
       <==> exists i: InstanceId, step :: k == LeaseKey(i, step) && Leased(turns, i, step)
  {
    if (Leases, k) in StoreAfter(initial, turns) {
      RunTranslatable(NewBooks(), [], turns);
      var ws := Durable(Run(Translatable, NewBooks(), [], turns).0.trace);
      NoStrayLease(initial, ws, k);
      var n :| 0 <= n < |ws| && ws[n].message.AcquireLease?
            && k == LeaseKey(ws[n].message.instance, ws[n].message.step);
      var i: InstanceId, step := ws[n].message.instance, ws[n].message.step;
      RunLeases(initial, turns, i, step);
      assert Leased(turns, i, step);
    }
    forall i: InstanceId, step | k == LeaseKey(i, step) && Leased(turns, i, step)
      ensures (Leases, k) in StoreAfter(initial, turns)
    {
      RunLeases(initial, turns, i, step);
    }
  }

  lemma Rest<T>(a: seq<T>, b: seq<T>) returns (rest: seq<T>)
    requires a <= b
    ensures b == a + rest
  {
    rest := b[|a|..];
  }

  lemma LaterDurable(first: seq<Turn<Write>>, more: seq<Turn<Write>>) returns (ws: seq<Write>)
    ensures Durable(Run(Translatable, NewBooks(), [], first + more).0.trace)
         == Durable(Run(Translatable, NewBooks(), [], first).0.trace) + ws
  {
    RunPrefix(Translatable, NewBooks(), [], first, more);
    ws := Rest(Durable(Run(Translatable, NewBooks(), [], first).0.trace),
               Durable(Run(Translatable, NewBooks(), [], first + more).0.trace));
  }

  lemma TranslatableRest(before: seq<Write>, ws: seq<Write>)
    requires Translatable(before + ws)
    ensures Translatable(before) && Translatable(ws)
  {
    assert forall i :: 0 <= i < |before| ==> before[i] == (before + ws)[i];
    assert forall i :: 0 <= i < |ws| ==> ws[i] == (before + ws)[|before| + i];
  }

  /** The store at a later point of a run comes from the earlier one by further writes. */
  lemma LaterStore(initial: Store, first: seq<Turn<Write>>, more: seq<Turn<Write>>) returns (ws: seq<Write>)
    ensures Translatable(ws) && StoreAfter(initial, first + more) == OneByOne(StoreAfter(initial, first), ws)
  {
    RunTranslatable(NewBooks(), [], first + more);
    ws := LaterDurable(first, more);
    var before := Durable(Run(Translatable, NewBooks(), [], first).0.trace);
    TranslatableRest(before, ws);
    OneByOneConcat(initial, before, ws);
  }

  /** A key of an append-only partition, stored at any point of a run, is there at every later point. */
  lemma RunKeepsKeys(initial: Store, first: seq<Turn<Write>>, more: seq<Turn<Write>>, p: Partition, k: Key)
    requires AppendOnly(p) && (p, k) in StoreAfter(initial, first)
    ensures (p, k) in StoreAfter(initial, first + more)
  {
    var ws := LaterStore(initial, first, more);
    AppendOnlyPartitions(StoreAfter(initial, first), ws, p, k);
  }

  /** A timer with a nonzero fire time, stored at any point of a run, is there at every later point. */
  lemma RunKeepsLateTimers(initial: Store, first: seq<Turn<Write>>, more: seq<Turn<Write>>,
                           f: Word, i: InstanceId, t: TimerId)
    requires f != 0 && (Timers, TimerKey(f, i, t)) in StoreAfter(initial, first)
    ensures (Timers, TimerKey(f, i, t)) in StoreAfter(initial, first + more)
  {
    var ws := LaterStore(initial, first, more);
    LateTimersAreNeverDeleted(StoreAfter(initial, first), ws, f, i, t);
  }
}
