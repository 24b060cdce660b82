/**
  The mailbox of the group-committing writer, for writes of any type `W`: requests, the
  acknowledgements they are owed, and traces of observable effects.

  Whether a batch of writes can be translated for the store is the parameter `legal`; whether
  the store then accepts it is part of each turn. The handler stops the actor when it fails, so
  a run ends with its first failing turn.

  A trace records, in order, batches made durable and acknowledgements sent; reply ports are
  numbers. `Justified` says that a trace acknowledges requests only after their writes, and
  those of all earlier requests, are durable, and in the order of the requests.
 */
module Mailbox {
  import opened Options

  datatype Request<W> =
    | WriteOne(write: W, reply: Option<nat>)
    | WriteBatch(writes: seq<W>, reply: Option<nat>)

  datatype Ack = Ack(port: nat, count: nat)

  datatype Trace<W> =
    | Start
    | Committed(before: Trace<W>, writes: seq<W>)
    | Acked(before: Trace<W>, ack: Ack)

  function WritesOf<W>(r: Request<W>): seq<W> {
    match r
    case WriteOne(write, _) => [write]
    case WriteBatch(writes, _) => writes
  }

  /** Concatenation, by cases on whether one side is empty. */
  function Cat<T>(a: seq<T>, b: seq<T>): (r: seq<T>)
    ensures |r| == |a| + |b|
  {
    if |b| == 0 then a else if |a| == 0 then b else a + b
  }

  lemma CatIsConcat<T>(a: seq<T>, b: seq<T>)
    ensures Cat(a, b) == a + b
  {
  }

  lemma CatExtends<T>(a: seq<T>, b: seq<T>)
    ensures a <= Cat(a, b)
  {
  }

  lemma ConcatAssociates<T>(a: seq<T>, b: seq<T>, c: seq<T>)
    ensures (a + b) + c == a + (b + c)
  {
  }

  lemma CatAssociates<T>(a: seq<T>, b: seq<T>, c: seq<T>)
    ensures Cat(Cat(a, b), c) == Cat(a, Cat(b, c))
  {
    if |a| > 0 && |b| > 0 && |c| > 0 {
      ConcatAssociates(a, b, c);
    }
  }

  /** The writes of the first `n` requests, in order. */
  function WritesUpTo<W>(rs: seq<Request<W>>, n: nat): seq<W>
    requires n <= |rs|
  {
    if n == 0 then [] else Cat(WritesUpTo(rs, n - 1), WritesOf(rs[n - 1]))
  }

  function AllWrites<W>(rs: seq<Request<W>>): seq<W> {
    WritesUpTo(rs, |rs|)
  }

  /** A request with a reply port is owed one acknowledgement carrying its own message count. */
  function AcksUpTo<W>(rs: seq<Request<W>>, n: nat): seq<Ack>
    requires n <= |rs|
  {
    if n == 0 then []
    else if rs[n - 1].reply.None? then AcksUpTo(rs, n - 1)
    else AcksUpTo(rs, n - 1) + [Ack(rs[n - 1].reply.value, |WritesOf(rs[n - 1])|)]
  }

  function AcksFor<W>(rs: seq<Request<W>>): seq<Ack> {
    AcksUpTo(rs, |rs|)
  }

  // ----- extending a trace

  function CommitTo<W>(trace: Trace<W>, ws: seq<W>): Trace<W> {
    if |ws| == 0 then trace else Committed(trace, ws)
  }

  function AckTo<W>(trace: Trace<W>, reply: Option<nat>, count: nat): Trace<W> {
    if reply.Some? then Acked(trace, Ack(reply.value, count)) else trace
  }

  /** Acknowledging the first `n` requests, one after the other. */
  function AckUpTo<W>(trace: Trace<W>, rs: seq<Request<W>>, n: nat): Trace<W>
    requires n <= |rs|
  {
    if n == 0 then trace else AckTo(AckUpTo(trace, rs, n - 1), rs[n - 1].reply, |WritesOf(rs[n - 1])|)
  }

  function AckEach<W>(trace: Trace<W>, rs: seq<Request<W>>): Trace<W> {
    AckUpTo(trace, rs, |rs|)
  }

  // ----- reading a trace

  /** The writes a trace makes durable, in order. */
  function Durable<W>(trace: Trace<W>): seq<W> {
    match trace
    case Start => []
    case Committed(before, writes) => Cat(Durable(before), writes)
    case Acked(before, _) => Durable(before)
  }

  /** The acknowledgements in a trace, in order. */
  function Acks<W>(trace: Trace<W>): seq<Ack> {
    match trace
    case Start => []
    case Committed(before, _) => Acks(before)
    case Acked(before, ack) => Acks(before) + [ack]
  }

  function SizeUpTo<W>(rs: seq<Request<W>>, n: nat): nat
    requires n <= |rs|
  {
    if n == 0 then 0 else SizeUpTo(rs, n - 1) + |WritesOf(rs[n - 1])|
  }

  function DurableSize<W>(trace: Trace<W>): nat {
    match trace
    case Start => 0
    case Committed(before, writes) => DurableSize(before) + |writes|
    case Acked(before, _) => DurableSize(before)
  }

  /** How many of the first `n` requests are owed an acknowledgement. */
  function OwedUpTo<W>(rs: seq<Request<W>>, n: nat): nat
    requires n <= |rs|
  {
    if n == 0 then 0 else OwedUpTo(rs, n - 1) + (if rs[n - 1].reply.Some? then 1 else 0)
  }

  function AckCount<W>(trace: Trace<W>): nat {
    match trace
    case Start => 0
    case Committed(before, _) => AckCount(before)
    case Acked(before, _) => AckCount(before) + 1
  }

  /** Sent in the state `before`, `ack` answers request `k` of `rs` with its own count: exactly the
      acknowledgements owed to the requests before it are sent, and at least as many writes are
      durable as it and they have together. */
  ghost predicate Answers<W>(before: Trace<W>, ack: Ack, rs: seq<Request<W>>, k: nat) {
    && k < |rs| && rs[k].reply == Some(ack.port) && ack.count == |WritesOf(rs[k])|
    && OwedUpTo(rs, k) == AckCount(before) && SizeUpTo(rs, k + 1) <= DurableSize(before)
  }

  /** Every acknowledgement in the trace answers a request of `rs` already durable when it is sent. */
  ghost predicate Justified<W>(trace: Trace<W>, rs: seq<Request<W>>) {
    match trace
    case Start => true
    case Committed(before, _) => Justified(before, rs)
    case Acked(before, ack) => Justified(before, rs) && exists k: nat :: Answers(before, ack, rs, k)
  }

  lemma {:induction false} UpToPrefix<W>(rs: seq<Request<W>>, more: seq<Request<W>>, n: nat)
    requires n <= |rs|
    ensures WritesUpTo(rs + more, n) == WritesUpTo(rs, n) && AcksUpTo(rs + more, n) == AcksUpTo(rs, n)
    ensures SizeUpTo(rs + more, n) == SizeUpTo(rs, n) && OwedUpTo(rs + more, n) == OwedUpTo(rs, n)
  {
    if n > 0 {
      UpToPrefix(rs, more, n - 1);
      assert (rs + more)[n - 1] == rs[n - 1];
    }
  }

  lemma {:induction false} WritesConcat<W>(rs: seq<Request<W>>, more: seq<Request<W>>, n: nat)
    requires n <= |more|
    ensures WritesUpTo(rs + more, |rs| + n) == Cat(AllWrites(rs), WritesUpTo(more, n))
  {
    if n == 0 {
      UpToPrefix(rs, more, |rs|);
    } else {
      WritesConcat(rs, more, n - 1);
      assert (rs + more)[|rs| + n - 1] == more[n - 1];
      CatAssociates(AllWrites(rs), WritesUpTo(more, n - 1), WritesOf(more[n - 1]));
    }
  }

  lemma {:induction false} SizeGrows<W>(rs: seq<Request<W>>, m: nat, n: nat)
    requires m <= n <= |rs|
    ensures SizeUpTo(rs, m) <= SizeUpTo(rs, n)
  {
    if m < n {
      SizeGrows(rs, m, n - 1);
    }
  }

  lemma {:induction false} SizeIsLength<W>(rs: seq<Request<W>>, n: nat)
    requires n <= |rs|
    ensures SizeUpTo(rs, n) == |WritesUpTo(rs, n)|
  {
    if n > 0 {
      SizeIsLength(rs, n - 1);
    }
  }

  lemma {:induction false} DurableSizeIsLength<W>(trace: Trace<W>)
    ensures DurableSize(trace) == |Durable(trace)|
  {
    if !trace.Start? {
      DurableSizeIsLength(trace.before);
    }
  }

  lemma {:induction false} OwedIsLength<W>(rs: seq<Request<W>>, n: nat)
    requires n <= |rs|
    ensures OwedUpTo(rs, n) == |AcksUpTo(rs, n)|
  {
    if n > 0 {
      OwedIsLength(rs, n - 1);
    }
  }

  lemma {:induction false} AckCountIsLength<W>(trace: Trace<W>)
    ensures AckCount(trace) == |Acks(trace)|
  {
    if !trace.Start? {
      AckCountIsLength(trace.before);
    }
  }

  /** Acknowledgements stay justified when more requests are answered. */
  lemma {:induction false} JustifiedGrows<W>(trace: Trace<W>, rs: seq<Request<W>>, more: seq<Request<W>>)
    requires Justified(trace, rs)
    ensures Justified(trace, rs + more)
  {
    match trace
    case Start =>
    case Committed(before, _) => JustifiedGrows(before, rs, more);
    case Acked(before, ack) =>
      JustifiedGrows(before, rs, more);
      var k: nat :| Answers(before, ack, rs, k);
      UpToPrefix(rs, more, k);
      UpToPrefix(rs, more, k + 1);
      assert Answers(before, ack, rs + more, k);
  }

  /** The first `n` of `more` stand in `rs` from position `at` on. */
  ghost predicate StandAt<W>(more: seq<Request<W>>, n: nat, rs: seq<Request<W>>, at: nat)
    requires n <= |more| && at + n <= |rs|
  {
    n > 0 ==> StandAt(more, n - 1, rs, at) && more[n - 1] == rs[at + n - 1]
  }

  lemma {:induction false} StandBehind<W>(rs: seq<Request<W>>, more: seq<Request<W>>, n: nat)
    requires n <= |more|
    ensures StandAt(more, n, rs + more, |rs|)
  {
    if n > 0 {
      StandBehind(rs, more, n - 1);
    }
  }

  /** Acknowledging requests adds their acknowledgements, ... */
  lemma {:induction false} AckUpToAcks<W>(trace: Trace<W>, rs: seq<Request<W>>, at: nat, more: seq<Request<W>>, n: nat)
    requires n <= |more| && at + n <= |rs| && StandAt(more, n, rs, at) && Acks(trace) == AcksUpTo(rs, at)
    ensures Acks(AckUpTo(trace, more, n)) == AcksUpTo(rs, at + n)
    decreases n
  {
    if n > 0 {
      AckUpToAcks(trace, rs, at, more, n - 1);
    }
  }

  /** ... and nothing else. */
  lemma {:induction false} AckUpToDurable<W>(trace: Trace<W>, rs: seq<Request<W>>, n: nat)
    requires n <= |rs|
    ensures Durable(AckUpTo(trace, rs, n)) == Durable(trace)
  {
    if n > 0 {
      AckUpToDurable(trace, rs, n - 1);
    }
  }

  lemma {:induction false} AckUpToSize<W>(trace: Trace<W>, rs: seq<Request<W>>, n: nat)
    requires n <= |rs|
    ensures DurableSize(AckUpTo(trace, rs, n)) == DurableSize(trace)
  {
    if n > 0 {
      AckUpToSize(trace, rs, n - 1);
    }
  }

  /** Acknowledging request `k` next is justified once the writes of all of `rs` are durable. */
  lemma AckToJustified<W>(trace: Trace<W>, rs: seq<Request<W>>, k: nat)
    requires k < |rs| && Justified(trace, rs) && DurableSize(trace) == SizeUpTo(rs, |rs|)
    requires AckCount(trace) == OwedUpTo(rs, k)
    ensures var t := AckTo(trace, rs[k].reply, |WritesOf(rs[k])|);
            Justified(t, rs) && AckCount(t) == OwedUpTo(rs, k + 1)
  {
    if rs[k].reply.Some? {
      SizeGrows(rs, k + 1, |rs|);
      assert Answers(trace, Ack(rs[k].reply.value, |WritesOf(rs[k])|), rs, k);
    }
  }

  /** Acknowledging a stretch `more` of `rs`, from `at` on, once all of `rs` is durable. */
  lemma {:induction false} AckUpToJustified<W>(trace: Trace<W>, rs: seq<Request<W>>, at: nat,
                                               more: seq<Request<W>>, n: nat)
    requires n <= |more| && at + n <= |rs| && StandAt(more, n, rs, at)
    requires Justified(trace, rs) && DurableSize(trace) == SizeUpTo(rs, |rs|) && AckCount(trace) == OwedUpTo(rs, at)
    ensures Justified(AckUpTo(trace, more, n), rs) && AckCount(AckUpTo(trace, more, n)) == OwedUpTo(rs, at + n)
    decreases n
  {
    if n > 0 {
      AckUpToJustified(trace, rs, at, more, n - 1);
      AckUpToSize(trace, more, n - 1);
      var r := rs[at + n - 1];
      assert more[n - 1] == r;
      AckToJustified(AckUpTo(trace, more, n - 1), rs, at + n - 1);
      assert AckUpTo(trace, more, n) == AckTo(AckUpTo(trace, more, n - 1), r.reply, |WritesOf(r)|);
    }
  }

  /** The trace makes exactly `rs` durable, in order, and acknowledges exactly `rs`, justifiedly. */
  ghost predicate Ledger<W>(trace: Trace<W>, rs: seq<Request<W>>) {
    Durable(trace) == AllWrites(rs) && Acks(trace) == AcksFor(rs) && Justified(trace, rs)
  }

  /** One commit of all of `more` makes exactly the writes of `rs + more` durable. */
  lemma CommitDurable<W>(trace: Trace<W>, rs: seq<Request<W>>, more: seq<Request<W>>)
    requires Durable(trace) == AllWrites(rs)
    ensures Durable(CommitTo(trace, AllWrites(more))) == AllWrites(rs + more)
  {
    WritesConcat(rs, more, |more|);
  }

  lemma AnswerAcks<W>(trace: Trace<W>, rs: seq<Request<W>>, more: seq<Request<W>>)
    requires Acks(trace) == AcksFor(rs)
    ensures Acks(AckEach(trace, more)) == AcksFor(rs + more)
  {
    UpToPrefix(rs, more, |rs|);
    StandBehind(rs, more, |more|);
    AckUpToAcks(trace, rs + more, |rs|, more, |more|);
  }

  lemma AnswerJustified<W>(trace: Trace<W>, rs: seq<Request<W>>, more: seq<Request<W>>)
    requires Justified(trace, rs + more) && DurableSize(trace) == SizeUpTo(rs + more, |rs + more|)
    requires AckCount(trace) == OwedUpTo(rs + more, |rs|)
    ensures Justified(AckEach(trace, more), rs + more)
  {
    StandBehind(rs, more, |more|);
    AckUpToJustified(trace, rs + more, |rs|, more, |more|);
  }

  lemma AllDurableSize<W>(trace: Trace<W>, rs: seq<Request<W>>)
    requires Durable(trace) == AllWrites(rs)
    ensures DurableSize(trace) == SizeUpTo(rs, |rs|)
  {
    DurableSizeIsLength(trace);
    SizeIsLength(rs, |rs|);
  }

  lemma AllAcksCount<W>(trace: Trace<W>, rs: seq<Request<W>>, more: seq<Request<W>>)
    requires Acks(trace) == AcksFor(rs)
    ensures AckCount(CommitTo(trace, AllWrites(more))) == OwedUpTo(rs + more, |rs|)
  {
    AckCountIsLength(trace);
    OwedIsLength(rs, |rs|);
    UpToPrefix(rs, more, |rs|);
  }

  /** Committing requests together and then acknowledging each extends the ledger by them. */
  lemma LedgerAnswers<W>(trace: Trace<W>, rs: seq<Request<W>>, more: seq<Request<W>>)
    requires Ledger(trace, rs)
    ensures Ledger(AckEach(CommitTo(trace, AllWrites(more)), more), rs + more)
  {
    var committed := CommitTo(trace, AllWrites(more));
    CommitDurable(trace, rs, more);
    AnswerAcks(committed, rs, more);
    AckUpToDurable(committed, more, |more|);
    JustifiedGrows(trace, rs, more);
    AllDurableSize(committed, rs + more);
    AllAcksCount(trace, rs, more);
    AnswerJustified(committed, rs, more);
  }

  /** `t` is an earlier state of `trace`. */
  ghost predicate Within<W>(t: Trace<W>, trace: Trace<W>) {
    t == trace || (!trace.Start? && Within(t, trace.before))
  }

  lemma {:induction false} EarlierState<W>(t: Trace<W>, trace: Trace<W>, rs: seq<Request<W>>)
    requires Within(t, trace) && Justified(trace, rs)
    ensures Justified(t, rs) && Durable(t) <= Durable(trace) && Acks(t) <= Acks(trace)
  {
    if t != trace {
      EarlierState(t, trace.before, rs);
      if trace.Committed? {
        CatExtends(Durable(trace.before), trace.writes);
      }
    }
  }

  lemma {:induction false} WritesGrow<W>(rs: seq<Request<W>>, m: nat, n: nat)
    requires m <= n <= |rs|
    ensures WritesUpTo(rs, m) <= WritesUpTo(rs, n)
  {
    if m < n {
      WritesGrow(rs, m, n - 1);
      CatExtends(WritesUpTo(rs, n - 1), WritesOf(rs[n - 1]));
    }
  }

  lemma {:induction false} AcksGrow<W>(rs: seq<Request<W>>, m: nat, n: nat)
    requires m <= n <= |rs|
    ensures AcksUpTo(rs, m) <= AcksUpTo(rs, n)
  {
    if m < n {
      AcksGrow(rs, m, n - 1);
    }
  }

  lemma ShorterPrefix<W>(a: seq<W>, b: seq<W>, whole: seq<W>)
    requires a <= whole && b <= whole && |a| <= |b|
    ensures a <= b
  {
  }

  /** Read off any state of the trace: an acknowledgement answers, with its own count, the next
      request that is owed one, when that request's writes and those of all requests before it
      are already durable. */
  lemma AckedWereDurable<W>(trace: Trace<W>, rs: seq<Request<W>>, before: Trace<W>, ack: Ack)
    returns (k: nat)
    requires Ledger(trace, rs) && Within(Acked(before, ack), trace)
    ensures k < |rs| && rs[k].reply == Some(ack.port) && ack.count == |WritesOf(rs[k])|
    ensures WritesUpTo(rs, k + 1) <= Durable(before) && AcksUpTo(rs, k) == Acks(before)
  {
    EarlierState(Acked(before, ack), trace, rs);
    k :| Answers(before, ack, rs, k);
    DurableAt(trace, rs, before, k);
    AcksAt(trace, rs, before, k);
  }

  lemma DurableAt<W>(trace: Trace<W>, rs: seq<Request<W>>, before: Trace<W>, k: nat)
    requires k < |rs| && Durable(before) <= Durable(trace) == AllWrites(rs)
    requires SizeUpTo(rs, k + 1) <= DurableSize(before)
    ensures WritesUpTo(rs, k + 1) <= Durable(before)
  {
    SizeIsLength(rs, k + 1);
    DurableSizeIsLength(before);
    WritesGrow(rs, k + 1, |rs|);
    ShorterPrefix(WritesUpTo(rs, k + 1), Durable(before), AllWrites(rs));
  }

  lemma AcksAt<W>(trace: Trace<W>, rs: seq<Request<W>>, before: Trace<W>, k: nat)
    requires k <= |rs| && Acks(before) <= Acks(trace) == AcksFor(rs) && OwedUpTo(rs, k) == AckCount(before)
    ensures AcksUpTo(rs, k) == Acks(before)
  {
    OwedIsLength(rs, k);
    AckCountIsLength(before);
    AcksGrow(rs, k, |rs|);
    ShorterPrefix(AcksUpTo(rs, k), Acks(before), AcksFor(rs));
  }

  lemma SingleRequest<W>(r: Request<W>, trace: Trace<W>)
    ensures AllWrites([r]) == WritesOf(r)
    ensures AckEach(trace, [r]) == AckTo(trace, r.reply, |WritesOf(r)|)
  {
    assert WritesUpTo([r], 0) == [] && AckUpTo(trace, [r], 0) == trace;
  }

  lemma {:induction false} NothingUpTo<W>(rs: seq<Request<W>>, n: nat)
    requires n <= |rs|
    ensures |WritesUpTo(rs, n)| == 0 <==> forall k :: 0 <= k < n ==> |WritesOf(rs[k])| == 0
  {
    if n > 0 {
      NothingUpTo(rs, n - 1);
    }
  }

  // ----- one turn of the actor

  datatype Books<W> = Books(mailbox: seq<Request<W>>, total: nat, trace: Trace<W>)

  /** The direct request fails when its commit or its translation does; an empty batch is not committed. */
  predicate DirectOk<W>(legal: seq<W> -> bool, first: Request<W>, commitOk: bool) {
    (first.WriteBatch? && |first.writes| == 0) || (commitOk && legal(WritesOf(first)))
  }

  predicate DrainOk<W>(legal: seq<W> -> bool, mailbox: seq<Request<W>>, drainOk: bool) {
    |AllWrites(mailbox)| == 0 || (drainOk && legal(AllWrites(mailbox)))
  }

  /** Committing the requests together, then acknowledging each. */
  function Answer<W>(b: Books<W>, rs: seq<Request<W>>): Books<W> {
    b.(total := b.total + |AllWrites(rs)|, trace := AckEach(CommitTo(b.trace, AllWrites(rs)), rs))
  }

  lemma AnswerOne<W>(b: Books<W>, r: Request<W>)
    ensures Answer(b, [r])
         == b.(total := b.total + |WritesOf(r)|,
               trace := AckTo(CommitTo(b.trace, WritesOf(r)), r.reply, |WritesOf(r)|))
  {
    SingleRequest(r, CommitTo(b.trace, WritesOf(r)));
  }

  /** The books after `handle`, and whether it returned `Ok`. */
  function Handled<W>(legal: seq<W> -> bool, b: Books<W>, first: Request<W>, commitOk: bool, drainOk: bool)
    : (Books<W>, bool)
  {
    if !DirectOk(legal, first, commitOk) then (b, false)
    else
      var direct := Answer(b, [first]).(mailbox := []);
      if !DrainOk(legal, b.mailbox, drainOk) then (direct, false)
      else if |AllWrites(b.mailbox)| == 0 then (direct, true)
      else (Answer(direct, b.mailbox), true)
  }

  // ----- every run

  /** `arrived` is what senders put in the mailbox since the last turn. */
  datatype Turn<W> = Turn(arrived: seq<Request<W>>, first: Request<W>, commitOk: bool, drainOk: bool)

  function TurnResult<W>(legal: seq<W> -> bool, b: Books<W>, t: Turn<W>): (Books<W>, bool) {
    Handled(legal, b.(mailbox := b.mailbox + t.arrived), t.first, t.commitOk, t.drainOk)
  }

  /** Requests a turn answers: none if the direct commit fails; only the direct one if the
      drain fails or finds nothing to write; otherwise the direct one and all drained ones. */
  function Answered<W>(legal: seq<W> -> bool, b: Books<W>, t: Turn<W>): seq<Request<W>> {
    var waiting := b.mailbox + t.arrived;
    if !DirectOk(legal, t.first, t.commitOk) then []
    else if !DrainOk(legal, waiting, t.drainOk) || |AllWrites(waiting)| == 0 then [t.first]
    else [t.first] + waiting
  }

  /** The books at the end of a run and the requests answered, given those answered before it. */
  function Run<W>(legal: seq<W> -> bool, b: Books<W>, rs: seq<Request<W>>, turns: seq<Turn<W>>)
    : (Books<W>, seq<Request<W>>)
    decreases |turns|
  {
    if turns == [] then (b, rs)
    else
      var (next, ok) := TurnResult(legal, b, turns[0]);
      Run(legal, next, rs + Answered(legal, b, turns[0]), if ok then turns[1..] else [])
  }

  /** The books agree with the requests answered so far. */
  ghost predicate Accounts<W>(b: Books<W>, rs: seq<Request<W>>) {
    b.total == |AllWrites(rs)| && Ledger(b.trace, rs)
  }

  lemma AccountsAnswer<W>(b: Books<W>, rs: seq<Request<W>>, more: seq<Request<W>>)
    requires Accounts(b, rs)
    ensures Accounts(Answer(b, more), rs + more)
  {
    WritesConcat(rs, more, |more|);
    LedgerAnswers(b.trace, rs, more);
  }

  type Relation<!W> = (Books<W>, seq<Request<W>>) -> bool

  /** `rel` relates books to requests so that answering more requests keeps the relation. */
  ghost predicate Kept<W(!new)>(rel: Relation<W>) {
    && (forall b, rs, more :: rel(b, rs) ==> rel(Answer(b, more), rs + more))
    && (forall b: Books<W>, rs, mailbox :: rel(b, rs) ==> rel(b.(mailbox := mailbox), rs))
  }

  lemma TurnKeeps<W(!new)>(rel: Relation<W>, legal: seq<W> -> bool, b: Books<W>, rs: seq<Request<W>>, t: Turn<W>)
    requires Kept(rel) && rel(b, rs)
    ensures rel(TurnResult(legal, b, t).0, rs + Answered(legal, b, t))
  {
    var here := b.(mailbox := b.mailbox + t.arrived);
    assert rel(here, rs);
    if !DirectOk(legal, t.first, t.commitOk) {
      assert rs + [] == rs;
    } else {
      assert rel(Answer(here, [t.first]), rs + [t.first]);
      var direct := Answer(here, [t.first]).(mailbox := []);
      assert rel(direct, rs + [t.first]);
      if DrainOk(legal, here.mailbox, t.drainOk) && |AllWrites(here.mailbox)| > 0 {
        assert rel(Answer(direct, here.mailbox), rs + [t.first] + here.mailbox);
        assert rs + [t.first] + here.mailbox == rs + ([t.first] + here.mailbox);
      }
    }
  }

  lemma {:induction false} RunKeeps<W(!new)>(rel: Relation<W>, legal: seq<W> -> bool, b: Books<W>,
                                             rs: seq<Request<W>>, turns: seq<Turn<W>>)
    requires Kept(rel) && rel(b, rs)
    ensures var (end, answered) := Run(legal, b, rs, turns); rel(end, answered)
    decreases |turns|
  {
    if turns != [] {
      TurnKeeps(rel, legal, b, rs, turns[0]);
      var (next, ok) := TurnResult(legal, b, turns[0]);
      RunKeeps(rel, legal, next, rs + Answered(legal, b, turns[0]), if ok then turns[1..] else []);
    }
  }

  lemma AccountsKept<W(!new)>()
    ensures Kept<W>(Accounts<W>)
  {
    forall b: Books<W>, rs, more | Accounts(b, rs)
      ensures Accounts(Answer(b, more), rs + more)
    {
      AccountsAnswer(b, rs, more);
    }
  }

  function NewBooks<W>(): Books<W> {
    Books([], 0, Start)
  }

  /**
    Over every run of a new actor: what is durable is exactly the writes of the answered
    requests, in order; `total` counts them; the acknowledgements are exactly one per answered
    request with a reply port, each with its own count; and each was sent only after its
    request's writes, and those of all requests answered before it, were durable.
   */
  lemma RunAccounts<W(!new)>(legal: seq<W> -> bool, turns: seq<Turn<W>>)
    ensures var (end, answered) := Run(legal, NewBooks(), [], turns); Accounts(end, answered)
  {
    AccountsKept<W>();
    RunKeeps(Accounts<W>, legal, NewBooks(), [], turns);
  }

  /** A failed drain makes nothing of the drained requests durable and acknowledges none of
      them: the turn ends as if the mailbox had been empty, except that it fails. */
  lemma FailedDrain<W>(legal: seq<W> -> bool, b: Books<W>, t: Turn<W>)
    requires DirectOk(legal, t.first, t.commitOk) && !DrainOk(legal, b.mailbox + t.arrived, t.drainOk)
    ensures TurnResult(legal, b, t) == (TurnResult(legal, b.(mailbox := []), t.(arrived := [])).0, false)
  {
  }

  /**
    After a successful turn the drained requests are among the answered ones if and only if
    some drained request has a message: empty batches drained on their own get no answer.
   */
  lemma DrainedAnsweredExactly<W>(legal: seq<W> -> bool, b: Books<W>, t: Turn<W>)
    requires TurnResult(legal, b, t).1 && |b.mailbox + t.arrived| > 0
    ensures var waiting := b.mailbox + t.arrived;
      && (Answered(legal, b, t) == [t.first] + waiting
          <==> exists k :: 0 <= k < |waiting| && |WritesOf(waiting[k])| > 0)
      && (Answered(legal, b, t) == [t.first]
          <==> forall k :: 0 <= k < |waiting| ==> |WritesOf(waiting[k])| == 0)
  {
    var waiting := b.mailbox + t.arrived;
    NothingUpTo(waiting, |waiting|);
    assert |[t.first] + waiting| > 1;
  }

  // ----- exactly what a turn and a run without failures do

  lemma {:induction false} AckUpToAdds<W>(trace: Trace<W>, rs: seq<Request<W>>, n: nat)
    requires n <= |rs|
    ensures Acks(AckUpTo(trace, rs, n)) == Cat(Acks(trace), AcksUpTo(rs, n))
  {
    if n > 0 {
      AckUpToAdds(trace, rs, n - 1);
      if rs[n - 1].reply.Some? {
        CatAssociates(Acks(trace), AcksUpTo(rs, n - 1), [Ack(rs[n - 1].reply.value, |WritesOf(rs[n - 1])|)]);
      }
    }
  }

  /** Answering adds the requests' writes, their count, and their acknowledgements. */
  lemma AnswerExactly<W>(b: Books<W>, rs: seq<Request<W>>)
    ensures Durable(Answer(b, rs).trace) == Cat(Durable(b.trace), AllWrites(rs))
    ensures Acks(Answer(b, rs).trace) == Cat(Acks(b.trace), AcksFor(rs))
  {
    AckUpToDurable(CommitTo(b.trace, AllWrites(rs)), rs, |rs|);
    AckUpToAdds(CommitTo(b.trace, AllWrites(rs)), rs, |rs|);
  }

  /** The writes need no commit, or theirs is accepted. */
  ghost predicate Goes<W>(legal: seq<W> -> bool, writes: seq<W>, accepted: bool) {
    |writes| > 0 ==> accepted && legal(writes)
  }

  /**
    A turn succeeds if and only if the direct request's writes and all waiting writes together are
    translatable and their commits accepted. What has become durable and what is acknowledged:
    nothing, the direct request, or also everything that waited, in order.
   */
  lemma TurnExactly<W>(legal: seq<W> -> bool, b: Books<W>, t: Turn<W>)
    ensures var (next, ok) := TurnResult(legal, b, t);
      var waiting := b.mailbox + t.arrived;
      var direct := Goes(legal, WritesOf(t.first), t.commitOk);
      var all := Cat(WritesOf(t.first), AllWrites(waiting));
      && (ok <==> direct && Goes(legal, AllWrites(waiting), t.drainOk))
      && Durable(next.trace) == Cat(Durable(b.trace), if ok then all else if direct then WritesOf(t.first) else [])
      && next.total == b.total + (if ok then |all| else if direct then |WritesOf(t.first)| else 0)
      && next.mailbox == (if direct then [] else waiting)
  {
    var here := b.(mailbox := b.mailbox + t.arrived);
    AnswerExactly(here, [t.first]);
    SingleRequest(t.first, b.trace);
    AnswerExactly(Answer(here, [t.first]).(mailbox := []), here.mailbox);
    CatAssociates(Durable(b.trace), WritesOf(t.first), AllWrites(here.mailbox));
  }

  lemma TurnAcksExactly<W>(legal: seq<W> -> bool, b: Books<W>, t: Turn<W>)
    ensures var (next, ok) := TurnResult(legal, b, t);
      var waiting := b.mailbox + t.arrived;
      var direct := if Goes(legal, WritesOf(t.first), t.commitOk) then AcksFor([t.first]) else [];
      var drained := if ok && |AllWrites(waiting)| > 0 then AcksFor(waiting) else [];
      Acks(next.trace) == Cat(Acks(b.trace), Cat(direct, drained))
  {
    var here := b.(mailbox := b.mailbox + t.arrived);
    AnswerExactly(here, [t.first]);
    SingleRequest(t.first, b.trace);
    AnswerExactly(Answer(here, [t.first]).(mailbox := []), here.mailbox);
    CatAssociates(Acks(b.trace), AcksFor([t.first]), AcksFor(here.mailbox));
  }

  /** All requests of a run, in the order the actor comes to them. */
  function Sent<W>(turns: seq<Turn<W>>): seq<Request<W>> {
    if turns == [] then [] else ([turns[0].first] + turns[0].arrived) + Sent(turns[1..])
  }

  /** Those that get an answer: all, except batches without a message drained only with such. */
  function Replied<W>(turns: seq<Turn<W>>): seq<Request<W>> {
    if turns == [] then []
    else ([turns[0].first] + Drained(turns[0])) + Replied(turns[1..])
  }

  /** No turn fails: every commit is accepted and every batch translatable. */
  ghost predicate NoneFails<W>(legal: seq<W> -> bool, turns: seq<Turn<W>>) {
    forall i :: 0 <= i < |turns| ==>
      && Goes(legal, WritesOf(turns[i].first), turns[i].commitOk)
      && Goes(legal, AllWrites(turns[i].arrived), turns[i].drainOk)
  }

  lemma AllConcat<W>(rs: seq<Request<W>>, more: seq<Request<W>>)
    ensures AllWrites(rs + more) == Cat(AllWrites(rs), AllWrites(more))
  {
    WritesConcat(rs, more, |more|);
  }

  lemma FirstAndArrived<W>(t: Turn<W>)
    ensures AllWrites([t.first] + t.arrived) == Cat(WritesOf(t.first), AllWrites(t.arrived))
  {
    AllConcat([t.first], t.arrived);
    SingleRequest(t.first, Start);
  }

  lemma SentStep<W>(turns: seq<Turn<W>>)
    requires turns != []
    ensures AllWrites(Sent(turns))
         == Cat(Cat(WritesOf(turns[0].first), AllWrites(turns[0].arrived)), AllWrites(Sent(turns[1..])))
  {
    var t, rest := turns[0], Sent(turns[1..]);
    FirstAndArrived(t);
    AllConcat([t.first] + t.arrived, rest);
  }

  /** Without a failure everything sent becomes durable, in order. */
  lemma {:induction false} RunDurable<W>(legal: seq<W> -> bool, b: Books<W>, rs: seq<Request<W>>, turns: seq<Turn<W>>)
    requires b.mailbox == [] && NoneFails(legal, turns)
    ensures var end := Run(legal, b, rs, turns).0;
      && Durable(end.trace) == Cat(Durable(b.trace), AllWrites(Sent(turns)))
      && end.total == b.total + |AllWrites(Sent(turns))| && end.mailbox == []
    decreases |turns|
  {
    if turns != [] {
      var (next, ok) := TurnResult(legal, b, turns[0]);
      TurnExactly(legal, b, turns[0]);
      assert b.mailbox + turns[0].arrived == turns[0].arrived;
      assert ok && next.mailbox == [];
      RunDurable(legal, next, rs + Answered(legal, b, turns[0]), turns[1..]);
      SentStep(turns);
      CatAssociates(Durable(b.trace), Cat(WritesOf(turns[0].first), AllWrites(turns[0].arrived)),
                    AllWrites(Sent(turns[1..])));
    }
  }

  lemma {:induction false} AcksConcat<W>(rs: seq<Request<W>>, more: seq<Request<W>>, n: nat)
    requires n <= |more|
    ensures AcksUpTo(rs + more, |rs| + n) == Cat(AcksFor(rs), AcksUpTo(more, n))
  {
    if n == 0 {
      UpToPrefix(rs, more, |rs|);
    } else {
      AcksConcat(rs, more, n - 1);
      assert (rs + more)[|rs| + n - 1] == more[n - 1];
      if more[n - 1].reply.Some? {
        CatAssociates(AcksFor(rs), AcksUpTo(more, n - 1), [Ack(more[n - 1].reply.value, |WritesOf(more[n - 1])|)]);
      }
    }
  }

  lemma AllAcksConcat<W>(rs: seq<Request<W>>, more: seq<Request<W>>)
    ensures AcksFor(rs + more) == Cat(AcksFor(rs), AcksFor(more))
  {
    AcksConcat(rs, more, |more|);
  }

  /** The drained requests a turn without a failure answers. */
  function Drained<W>(t: Turn<W>): seq<Request<W>> {
    if |AllWrites(t.arrived)| > 0 then t.arrived else []
  }

  lemma RepliedStep<W>(turns: seq<Turn<W>>)
    requires turns != []
    ensures AcksFor(Replied(turns))
         == Cat(Cat(AcksFor([turns[0].first]), AcksFor(Drained(turns[0]))), AcksFor(Replied(turns[1..])))
  {
    var t, rest := turns[0], Replied(turns[1..]);
    AllAcksConcat([t.first], Drained(t));
    AllAcksConcat([t.first] + Drained(t), rest);
  }

  lemma {:induction false} RunAcks<W>(legal: seq<W> -> bool, b: Books<W>, rs: seq<Request<W>>, turns: seq<Turn<W>>)
    requires b.mailbox == [] && NoneFails(legal, turns)
    ensures Acks(Run(legal, b, rs, turns).0.trace) == Cat(Acks(b.trace), AcksFor(Replied(turns)))
    decreases |turns|
  {
    if turns != [] {
      var (next, ok) := TurnResult(legal, b, turns[0]);
      TurnExactly(legal, b, turns[0]);
      TurnAcksExactly(legal, b, turns[0]);
      assert b.mailbox + turns[0].arrived == turns[0].arrived;
      RunAcks(legal, next, rs + Answered(legal, b, turns[0]), turns[1..]);
      RepliedStep(turns);
      CatAssociates(Acks(b.trace), Cat(AcksFor([turns[0].first]), AcksFor(Drained(turns[0]))),
                    AcksFor(Replied(turns[1..])));
    }
  }

  /** Every request that carries a message is among the answered ones. */
  lemma {:induction false} MessagesAreReplied<W>(turns: seq<Turn<W>>, r: Request<W>)
    requires r in Sent(turns) && |WritesOf(r)| > 0
    ensures r in Replied(turns)
  {
    if r != turns[0].first && r in turns[0].arrived {
      var k :| 0 <= k < |turns[0].arrived| && turns[0].arrived[k] == r;
      NothingUpTo(turns[0].arrived, |turns[0].arrived|);
    } else if r != turns[0].first {
      MessagesAreReplied(turns[1..], r);
    }
  }

  lemma {:induction false} RepliedAreAcked<W>(rs: seq<Request<W>>, n: nat, k: nat)
    requires k < n <= |rs| && rs[k].reply.Some?
    ensures Ack(rs[k].reply.value, |WritesOf(rs[k])|) in AcksUpTo(rs, n)
  {
    if k < n - 1 {
      RepliedAreAcked(rs, n - 1, k);
    }
  }

  /**
    A new actor none of whose turns fails makes every write sent to it durable, in the order of the
    requests, and acknowledges every request that carries a message and has a reply port.
   */
  lemma RunWithoutFailure<W>(legal: seq<W> -> bool, turns: seq<Turn<W>>, r: Request<W>)
    requires NoneFails(legal, turns)
    ensures var end := Run(legal, NewBooks(), [], turns).0;
      && Durable(end.trace) == AllWrites(Sent(turns)) && end.total == |AllWrites(Sent(turns))|
      && Acks(end.trace) == AcksFor(Replied(turns))
      && (r in Sent(turns) && |WritesOf(r)| > 0 && r.reply.Some? ==>
            Ack(r.reply.value, |WritesOf(r)|) in Acks(end.trace))
  {
    RunDurable(legal, NewBooks(), [], turns);
    RunAcks(legal, NewBooks(), [], turns);
    if r in Sent(turns) && |WritesOf(r)| > 0 && r.reply.Some? {
      MessagesAreReplied(turns, r);
      var k :| 0 <= k < |Replied(turns)| && Replied(turns)[k] == r;
      RepliedAreAcked(Replied(turns), |Replied(turns)|, k);
    }
  }

  // ----- what is durable stays durable

  lemma AnswerExtends<W>(b: Books<W>, rs: seq<Request<W>>)
    ensures Durable(b.trace) <= Durable(Answer(b, rs).trace)
  {
    AckUpToDurable(CommitTo(b.trace, AllWrites(rs)), rs, |rs|);
    CatExtends(Durable(b.trace), AllWrites(rs));
  }

  lemma TurnExtends<W>(legal: seq<W> -> bool, b: Books<W>, t: Turn<W>)
    ensures Durable(b.trace) <= Durable(TurnResult(legal, b, t).0.trace)
  {
    AnswerExtends(b.(mailbox := b.mailbox + t.arrived), [t.first]);
    AnswerExtends(Answer(b.(mailbox := b.mailbox + t.arrived), [t.first]).(mailbox := []), b.mailbox + t.arrived);
  }

  lemma {:induction false} RunExtends<W>(legal: seq<W> -> bool, b: Books<W>, rs: seq<Request<W>>, turns: seq<Turn<W>>)
    ensures Durable(b.trace) <= Durable(Run(legal, b, rs, turns).0.trace)
    decreases |turns|
  {
    if turns != [] {
      TurnExtends(legal, b, turns[0]);
      var (next, ok) := TurnResult(legal, b, turns[0]);
      RunExtends(legal, next, rs + Answered(legal, b, turns[0]), if ok then turns[1..] else []);
    }
  }

  /** Whatever is durable at some point of a run is durable, in the same order and place, at every later point. */
  lemma {:induction false} RunPrefix<W>(legal: seq<W> -> bool, b: Books<W>, rs: seq<Request<W>>,
                                        first: seq<Turn<W>>, more: seq<Turn<W>>)
    ensures Durable(Run(legal, b, rs, first).0.trace) <= Durable(Run(legal, b, rs, first + more).0.trace)
    decreases |first|
  {
    if first == [] {
      assert first + more == more;
      RunExtends(legal, b, rs, more);
    } else {
      var (next, ok) := TurnResult(legal, b, first[0]);
      assert (first + more)[0] == first[0] && (first + more)[1..] == first[1..] + more;
      if ok {
        RunPrefix(legal, next, rs + Answered(legal, b, first[0]), first[1..], more);
      }
    }
  }
}
