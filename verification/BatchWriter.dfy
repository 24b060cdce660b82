/**
  The size-bounded batching writer, `crates/vo-core/src/db_writer_actor.rs`.

  The committer is an oracle: `accepts(n)` says whether its n-th call succeeds. A failed commit
  drops the batch it was given, and the rest of the request is not received. A limit of 0 makes
  every message its own batch, as a limit of 1 does.
 */
module BatchWriter {

  type Oracle = nat -> bool

  /** The size at which the buffer is flushed. */
  function FlushSize(maxBatchSize: nat): (b: nat)
    ensures b >= 1
  {
    if maxBatchSize == 0 then 1 else maxBatchSize
  }

  /** Full batches of `b`, and what is left over as a shorter last one. */
  function Chunks<M>(ms: seq<M>, b: nat): seq<seq<M>>
    requires b >= 1
  {
    if |ms| == 0 then []
    else if |ms| <= b then [ms]
    else [ms[..b]] + Chunks(ms[b..], b)
  }

  function Flatten<M>(cs: seq<seq<M>>): seq<M> {
    if |cs| == 0 then [] else Flatten(cs[..|cs| - 1]) + cs[|cs| - 1]
  }

  /** How many of the `n` calls from the `from`-th on succeed before the first failure. */
  function Successes(accepts: Oracle, from: nat, n: nat): (k: nat)
    ensures k <= n
    ensures forall i :: from <= i < from + k ==> accepts(i)
    ensures k < n ==> !accepts(from + k)
    decreases n
  {
    if n == 0 || !accepts(from) then 0 else 1 + Successes(accepts, from + 1, n - 1)
  }

  /** The observable state between two actor messages; `durable` lists the committed batches. */
  datatype State<M> = State(received: nat, batches: nat, calls: nat, durable: seq<seq<M>>)

  /** A Commit: batches go to the committer in order until one is refused. */
  function Committed<M>(s: State<M>, accepts: Oracle, maxBatchSize: nat, ms: seq<M>): (State<M>, bool) {
    var cs := Chunks(ms, FlushSize(maxBatchSize));
    var k := Successes(accepts, s.calls, |cs|);
    var tried := if k == |cs| then k else k + 1;
    (State(s.received + |Flatten(cs[..tried])|, s.batches + k, s.calls + tried, s.durable + cs[..k]), k == |cs|)
  }

  /** `messages_received.saturating_sub(batches_committed * max_batch_size)`. */
  function Depth(received: nat, batches: nat, maxBatchSize: nat): nat {
    if received >= batches * maxBatchSize then received - batches * maxBatchSize else 0
  }

  // ----- the code

  class DbWriterActorState<M> {
    const accepts: Oracle
    const maxBatchSize: nat
    var currentBatch: seq<M>
    var messagesReceived: nat
    var batchesCommitted: nat
    var calls: nat
    var durable: seq<seq<M>>

    ghost function View(): State<M>
      reads this
    {
      State(messagesReceived, batchesCommitted, calls, durable)
    }

    constructor (accepts: Oracle, maxBatchSize: nat)
      ensures this.accepts == accepts && this.maxBatchSize == maxBatchSize
      ensures currentBatch == [] && View() == State(0, 0, 0, [])
    {
      this.accepts, this.maxBatchSize := accepts, maxBatchSize;
      currentBatch, messagesReceived, batchesCommitted, calls, durable := [], 0, 0, 0, [];
    }

    ghost function Now(): Buffering<M>
      reads this
    {
      Buffering(currentBatch, View())
    }

    method CommitBatch() returns (ok: bool)
      modifies this
      ensures (Now(), ok) == Flushed(old(Now()), accepts)
    {
      if |currentBatch| == 0 {
        return true;
      }
      var messages := currentBatch;
      currentBatch := [];
      ok := accepts(calls);
      calls := calls + 1;
      if ok {
        batchesCommitted := batchesCommitted + 1;
        durable := durable + [messages];
      }
    }

    /** Between two actor messages the buffer is empty. */
    method Commit(messages: seq<M>) returns (ok: bool)
      requires currentBatch == []
      modifies this
      ensures currentBatch == []
      ensures (View(), ok) == Committed(old(View()), accepts, maxBatchSize, messages)
    {
      LoopIsCommitted(View(), accepts, maxBatchSize, [], messages);
      assert [] + messages == messages;
      ghost var outcome := Looped(Now(), accepts, maxBatchSize, messages);
      assert messages[0..] == messages;
      for j := 0 to |messages|
        invariant Looped(Now(), accepts, maxBatchSize, messages[j..]) == outcome
      {
        assert messages[j..][0] == messages[j] && messages[j..][1..] == messages[j + 1..];
        ghost var before := Now();
        ok := true;
        currentBatch := currentBatch + [messages[j]];
        messagesReceived := messagesReceived + 1;
        if |currentBatch| >= maxBatchSize {
          ok := CommitBatch();
        }
        assert Pushed(before, accepts, maxBatchSize, messages[j]) == (Now(), ok);
        if !ok {
          return;
        }
      }
      ok := CommitBatch();
    }

    method GetMailboxDepth() returns (depth: nat)
      ensures depth == Depth(messagesReceived, batchesCommitted, maxBatchSize)
    {
      var flushed := batchesCommitted * maxBatchSize;
      depth := if messagesReceived >= flushed then messagesReceived - flushed else 0;
    }

    /** With the buffer empty, shutting down commits nothing. */
    method Shutdown()
      requires currentBatch == []
      modifies this
      ensures currentBatch == [] && View() == old(View())
    {
      var _ := CommitBatch();
    }
  }

  // ----- the loop of Commit, message by message

  datatype Buffering<M> = Buffering(buffer: seq<M>, state: State<M>)

  /** `commit_batch`: the buffer is emptied, and becomes durable if the committer accepts it. */
  function Flushed<M>(p: Buffering<M>, accepts: Oracle): (Buffering<M>, bool) {
    var s := p.state;
    if |p.buffer| == 0 then (p, true)
    else if accepts(s.calls) then
      (Buffering([], s.(batches := s.batches + 1, calls := s.calls + 1, durable := s.durable + [p.buffer])), true)
    else (Buffering([], s.(calls := s.calls + 1)), false)
  }

  function Pushed<M>(p: Buffering<M>, accepts: Oracle, maxBatchSize: nat, message: M): (Buffering<M>, bool) {
    var q := Buffering(p.buffer + [message], p.state.(received := p.state.received + 1));
    if |q.buffer| >= maxBatchSize then Flushed(q, accepts) else (q, true)
  }

  function Looped<M>(p: Buffering<M>, accepts: Oracle, maxBatchSize: nat, ms: seq<M>): (Buffering<M>, bool)
    decreases |ms|
  {
    if |ms| == 0 then Flushed(p, accepts)
    else
      var (q, ok) := Pushed(p, accepts, maxBatchSize, ms[0]);
      if ok then Looped(q, accepts, maxBatchSize, ms[1..]) else (q, false)
  }

  /** Splitting a full batch off the front of a request: refused, nothing else is tried. */
  lemma CommittedConsRefused<M>(s: State<M>, accepts: Oracle, maxBatchSize: nat, c: seq<M>, ms: seq<M>)
    requires |c| == FlushSize(maxBatchSize) && !accepts(s.calls)
    ensures Committed(s, accepts, maxBatchSize, c + ms)
         == (s.(received := s.received + |c|, calls := s.calls + 1), false)
  {
    var all := Chunks(c + ms, FlushSize(maxBatchSize));
    FullFirst(c, ms, FlushSize(maxBatchSize));
    assert all[..1] == [c] && [c][..0] == [] && Flatten([c]) == c;
    assert all[..0] == [] && s.durable + [] == s.durable;
  }

  /** Accepted, the rest of the request goes on from there. */
  lemma CommittedConsAccepted<M>(s: State<M>, accepts: Oracle, maxBatchSize: nat, c: seq<M>, ms: seq<M>)
    requires |c| == FlushSize(maxBatchSize) && accepts(s.calls)
    ensures Committed(s, accepts, maxBatchSize, c + ms)
         == Committed(Accepted(s, c), accepts, maxBatchSize, ms)
  {
    var b := FlushSize(maxBatchSize);
    var cs := Chunks(ms, b);
    FullFirst(c, ms, b);
    var k := Successes(accepts, s.calls + 1, |cs|);
    OneMoreChunk(s.durable, c, cs, k, if k == |cs| then k else k + 1);
  }

  lemma OneMoreChunk<M>(durable: seq<seq<M>>, c: seq<M>, cs: seq<seq<M>>, k: nat, tried: nat)
    requires k <= |cs| && tried <= |cs|
    ensures |Flatten(([c] + cs)[..tried + 1])| == |c| + |Flatten(cs[..tried])|
    ensures durable + ([c] + cs)[..k + 1] == (durable + [c]) + cs[..k]
  {
    PrefixCons(c, cs, k);
    PrefixCons(c, cs, tried);
    FlattenCons(c, cs[..tried]);
    assert durable + ([c] + cs[..k]) == (durable + [c]) + cs[..k];
  }

  lemma PrefixCons<M>(c: seq<M>, cs: seq<seq<M>>, k: nat)
    requires k <= |cs|
    ensures ([c] + cs)[..k + 1] == [c] + cs[..k]
  {
  }

  lemma FullFirst<M>(c: seq<M>, ms: seq<M>, b: nat)
    requires |c| == b >= 1
    ensures Chunks(c + ms, b) == [c] + Chunks(ms, b)
  {
    if ms == [] {
      assert c + ms == c;
    } else {
      assert (c + ms)[..b] == c && (c + ms)[b..] == ms;
    }
  }

  /** A request that fits the buffer is one batch. */
  lemma CommittedOne<M>(s: State<M>, accepts: Oracle, maxBatchSize: nat, c: seq<M>)
    requires 1 <= |c| <= FlushSize(maxBatchSize)
    ensures Committed(s, accepts, maxBatchSize, c)
         == if accepts(s.calls)
            then (Accepted(s, c), true)
            else (s.(received := s.received + |c|, calls := s.calls + 1), false)
  {
    var cs := [c];
    assert Chunks(c, FlushSize(maxBatchSize)) == cs && cs[..1] == cs && cs[..0] == [];
    assert s.durable + [] == s.durable;
    assert Flatten(cs) == c;
  }

  /** The loop, started with `buffer` in hand, does to `ms` what a Commit does to both together. */
  ghost predicate LoopCommits<M>(s: State<M>, accepts: Oracle, maxBatchSize: nat, buffer: seq<M>, ms: seq<M>) {
    var (t, ok) := Committed(s, accepts, maxBatchSize, buffer + ms);
    Looped(Buffering(buffer, s.(received := s.received + |buffer|)), accepts, maxBatchSize, ms)
      == (Buffering([], t), ok)
  }

  lemma LoopEnds<M>(s: State<M>, accepts: Oracle, maxBatchSize: nat, buffer: seq<M>)
    requires |buffer| < FlushSize(maxBatchSize)
    ensures LoopCommits(s, accepts, maxBatchSize, buffer, [])
  {
    assert buffer + [] == buffer;
    if buffer == [] {
      CommittedNone(s, accepts, maxBatchSize);
    } else {
      CommittedOne(s, accepts, maxBatchSize, buffer);
    }
  }

  lemma LoopFills<M>(s: State<M>, accepts: Oracle, maxBatchSize: nat, buffer: seq<M>, ms: seq<M>)
    requires ms != [] && |buffer| + 1 < FlushSize(maxBatchSize)
    requires LoopCommits(s, accepts, maxBatchSize, buffer + [ms[0]], ms[1..])
    ensures LoopCommits(s, accepts, maxBatchSize, buffer, ms)
  {
    OneMoreBuffered(buffer, ms);
  }

  lemma OneMoreBuffered<M>(buffer: seq<M>, ms: seq<M>)
    requires |ms| > 0
    ensures buffer + ms == (buffer + [ms[0]]) + ms[1..]
  {
    assert ms == [ms[0]] + ms[1..];
  }

  /** The state after one more accepted batch. */
  function Accepted<M>(s: State<M>, c: seq<M>): State<M> {
    State(s.received + |c|, s.batches + 1, s.calls + 1, s.durable + [c])
  }

  lemma LoopFlushes<M>(s: State<M>, accepts: Oracle, maxBatchSize: nat, buffer: seq<M>, ms: seq<M>)
    requires |ms| > 0 && |buffer| + 1 == FlushSize(maxBatchSize) && accepts(s.calls)
    requires LoopCommits(Accepted(s, buffer + [ms[0]]), accepts, maxBatchSize, [], ms[1..])
    ensures LoopCommits(s, accepts, maxBatchSize, buffer, ms)
  {
    var c := buffer + [ms[0]];
    OneMoreBuffered(buffer, ms);
    assert [] + ms[1..] == ms[1..];
    CommittedConsAccepted(s, accepts, maxBatchSize, c, ms[1..]);
    PushedFlushes(s, accepts, maxBatchSize, buffer, ms[0]);
  }

  /** The message that fills the buffer has it committed. */
  lemma PushedFlushes<M>(s: State<M>, accepts: Oracle, maxBatchSize: nat, buffer: seq<M>, message: M)
    requires |buffer| + 1 == FlushSize(maxBatchSize) && accepts(s.calls)
    ensures Pushed(Buffering(buffer, s.(received := s.received + |buffer|)), accepts, maxBatchSize, message)
         == (Buffering([], Accepted(s, buffer + [message])), true)
  {
  }

  lemma LoopIsRefused<M>(s: State<M>, accepts: Oracle, maxBatchSize: nat, buffer: seq<M>, ms: seq<M>)
    requires |ms| > 0 && |buffer| + 1 == FlushSize(maxBatchSize) && !accepts(s.calls)
    ensures LoopCommits(s, accepts, maxBatchSize, buffer, ms)
  {
    var c := buffer + [ms[0]];
    OneMoreBuffered(buffer, ms);
    CommittedConsRefused(s, accepts, maxBatchSize, c, ms[1..]);
  }

  /** Buffering one message at a time passes on exactly the batches of `Committed`. */
  lemma {:induction false} LoopIsCommitted<M>(s: State<M>, accepts: Oracle, maxBatchSize: nat,
                                              buffer: seq<M>, ms: seq<M>)
    requires |buffer| < FlushSize(maxBatchSize)
    ensures LoopCommits(s, accepts, maxBatchSize, buffer, ms)
    decreases |ms|
  {
    if |ms| == 0 {
      assert ms == [];
      LoopEnds(s, accepts, maxBatchSize, buffer);
    } else if |buffer| + 1 < FlushSize(maxBatchSize) {
      LoopIsCommitted(s, accepts, maxBatchSize, buffer + [ms[0]], ms[1..]);
      LoopFills(s, accepts, maxBatchSize, buffer, ms);
    } else {
      if accepts(s.calls) {
        LoopIsCommitted(Accepted(s, buffer + [ms[0]]), accepts, maxBatchSize, [], ms[1..]);
        LoopFlushes(s, accepts, maxBatchSize, buffer, ms);
      } else {
        LoopIsRefused(s, accepts, maxBatchSize, buffer, ms);
      }
    }
  }

  lemma CommittedNone<M>(s: State<M>, accepts: Oracle, maxBatchSize: nat)
    ensures Committed(s, accepts, maxBatchSize, []) == (s, true)
  {
    assert s.durable + [] == s.durable;
  }

  // ----- what a Commit passes on

  ghost predicate SizesAtMost<M>(cs: seq<seq<M>>, b: nat) {
    forall i :: 0 <= i < |cs| ==> |cs[i]| <= b
  }

  /** All batches are full but the last, which is not empty. */
  ghost predicate WellCut<M>(cs: seq<seq<M>>, b: nat) {
    forall i :: 0 <= i < |cs| ==> 1 <= |cs[i]| <= b && (i < |cs| - 1 ==> |cs[i]| == b)
  }

  lemma WellCutCons<M>(c: seq<M>, cs: seq<seq<M>>, b: nat)
    requires |c| == b >= 1 && WellCut(cs, b)
    ensures WellCut([c] + cs, b)
  {
    var all := [c] + cs;
    forall i | 0 <= i < |all|
      ensures 1 <= |all[i]| <= b && (i < |all| - 1 ==> |all[i]| == b)
    {
      if i > 0 {
        var m := cs[i - 1];
        assert all[i] == m;
        assert 1 <= |m| <= b;
      }
    }
  }

  lemma {:induction false} ChunkSizes<M>(ms: seq<M>, b: nat)
    requires b >= 1
    ensures WellCut(Chunks(ms, b), b)
    decreases |ms|
  {
    if |ms| > b {
      ChunkSizes(ms[b..], b);
      WellCutCons(ms[..b], Chunks(ms[b..], b), b);
    }
  }

  /** Batches carry exactly the messages, in order. */
  lemma {:induction false} ChunksExact<M>(ms: seq<M>, b: nat)
    requires b >= 1
    ensures Flatten(Chunks(ms, b)) == ms
    decreases |ms|
  {
    if |ms| > b {
      ChunksExact(ms[b..], b);
      FlattenCons(ms[..b], Chunks(ms[b..], b));
    } else if ms != [] {
      assert [ms][..0] == [];
    }
  }

  lemma {:induction false} FlattenCons<M>(c: seq<M>, cs: seq<seq<M>>)
    ensures Flatten([c] + cs) == c + Flatten(cs)
  {
    if cs == [] {
      assert [c] + cs == [c] && [c][..0] == [];
    } else {
      FlattenCons(c, cs[..|cs| - 1]);
      assert ([c] + cs)[..|cs|] == [c] + cs[..|cs| - 1];
    }
  }

  lemma {:induction false} FlattenConcat<M>(a: seq<seq<M>>, c: seq<seq<M>>)
    ensures Flatten(a + c) == Flatten(a) + Flatten(c)
    decreases |c|
  {
    if c == [] {
      assert a + c == a;
    } else {
      assert (a + c)[..|a + c| - 1] == a + c[..|c| - 1];
      FlattenConcat(a, c[..|c| - 1]);
    }
  }

  /** The first `k` batches, if all full, are the first `k * b` messages. */
  lemma OneMoreTimes(k: nat, b: nat)
    ensures (k + 1) * b == k * b + b
  {
  }

  lemma {:induction false} FullPrefix<M>(cs: seq<seq<M>>, b: nat, k: nat)
    requires k <= |cs| && forall i :: 0 <= i < k ==> |cs[i]| == b
    ensures |Flatten(cs[..k])| == k * b
    ensures Flatten(cs[..k]) <= Flatten(cs)
  {
    if k > 0 {
      FullPrefix(cs, b, k - 1);
      assert cs[..k][..k - 1] == cs[..k - 1];
      OneMoreTimes(k - 1, b);
    }
    FlattenConcat(cs[..k], cs[k..]);
    assert cs[..k] + cs[k..] == cs;
  }

  /** The batches a Commit adds to the durable ones. */
  function Added<M>(s: State<M>, accepts: Oracle, maxBatchSize: nat, ms: seq<M>): seq<seq<M>> {
    var cs := Chunks(ms, FlushSize(maxBatchSize));
    cs[..Successes(accepts, s.calls, |cs|)]
  }

  /** A Commit answered Ok has made exactly its messages durable, in order, in full batches but for the last. */
  lemma CommitOk<M>(s: State<M>, accepts: Oracle, maxBatchSize: nat, ms: seq<M>)
    requires Committed(s, accepts, maxBatchSize, ms).1
    ensures var t := Committed(s, accepts, maxBatchSize, ms).0;
            var added := Added(s, accepts, maxBatchSize, ms);
            && t.durable == s.durable + added && t.batches == s.batches + |added|
            && Flatten(added) == ms && t.received == s.received + |ms|
            && (forall i :: 0 <= i < |added| - 1 ==> |added[i]| == FlushSize(maxBatchSize))
            && (added != [] ==> 1 <= |added[|added| - 1]| <= FlushSize(maxBatchSize))
  {
    var cs := Chunks(ms, FlushSize(maxBatchSize));
    ChunkSizes(ms, FlushSize(maxBatchSize));
    ChunksExact(ms, FlushSize(maxBatchSize));
    assert cs[..|cs|] == cs;
  }

  /** One answered Err has made durable a proper prefix whose length is a multiple of the batch size. */
  lemma CommitErr<M>(s: State<M>, accepts: Oracle, maxBatchSize: nat, ms: seq<M>)
    requires !Committed(s, accepts, maxBatchSize, ms).1
    ensures var t := Committed(s, accepts, maxBatchSize, ms).0;
            var added := Added(s, accepts, maxBatchSize, ms);
            && t.durable == s.durable + added && t.batches == s.batches + |added|
            && Flatten(added) < ms && |Flatten(added)| == |added| * FlushSize(maxBatchSize)
  {
    var b := FlushSize(maxBatchSize);
    var cs := Chunks(ms, b);
    var k := Successes(accepts, s.calls, |cs|);
    ChunkSizes(ms, b);
    ChunksExact(ms, b);
    FullPrefix(cs, b, k);
    ProperPrefix(cs, k);
  }

  lemma ProperPrefix<M>(cs: seq<seq<M>>, k: nat)
    requires k < |cs| && cs[k] != []
    ensures |Flatten(cs[..k])| < |Flatten(cs)|
  {
    FlattenConcat(cs[..k + 1], cs[k + 1..]);
    assert cs[..k + 1] + cs[k + 1..] == cs;
    assert cs[..k + 1][..k] == cs[..k];
  }

  /** A request needs as many batches as its size divided by the limit, rounded up. */
  lemma {:induction false} ChunkCount<M>(ms: seq<M>, b: nat)
    requires b >= 1
    ensures var n := |Chunks(ms, b)|; |ms| <= n * b && (n > 0 ==> (n - 1) * b < |ms|)
    decreases |ms|
  {
    if |ms| > b {
      ChunkCount(ms[b..], b);
      OneMoreTimes(|Chunks(ms[b..], b)|, b);
      if |Chunks(ms[b..], b)| > 0 {
        OneMoreTimes(|Chunks(ms[b..], b)| - 1, b);
      }
    }
  }

  /** The first refused call ends a Commit; without one it succeeds. */
  ghost predicate FirstRefused(accepts: Oracle, from: nat, n: nat, k: nat) {
    k < n && !accepts(from + k) && forall i :: from <= i < from + k ==> accepts(i)
  }

  /** A Commit answers Ok if and only if the committer accepts every one of its batches; otherwise
      exactly the batches before the first refused one are durable, and that one was the last tried. */
  lemma CommitExactly<M>(s: State<M>, accepts: Oracle, maxBatchSize: nat, ms: seq<M>)
    ensures var (t, ok) := Committed(s, accepts, maxBatchSize, ms);
      var cs := Chunks(ms, FlushSize(maxBatchSize));
      && (ok <==> forall i :: s.calls <= i < s.calls + |cs| ==> accepts(i))
      && (ok ==> t == State(s.received + |ms|, s.batches + |cs|, s.calls + |cs|, s.durable + cs))
      && (!ok ==> exists k: nat ::
            && FirstRefused(accepts, s.calls, |cs|, k)
            && t == State(s.received + |Flatten(cs[..k + 1])|, s.batches + k, s.calls + k + 1, s.durable + cs[..k]))
  {
    var cs := Chunks(ms, FlushSize(maxBatchSize));
    var k := Successes(accepts, s.calls, |cs|);
    ChunksExact(ms, FlushSize(maxBatchSize));
    assert cs[..|cs|] == cs;
    if k < |cs| {
      assert !accepts(s.calls + k);
      assert FirstRefused(accepts, s.calls, |cs|, k);
    }
  }

  /** A request that fits one batch becomes durable as a whole or not at all. */
  lemma SmallRequestAllOrNothing<M>(s: State<M>, accepts: Oracle, maxBatchSize: nat, ms: seq<M>)
    requires |ms| <= FlushSize(maxBatchSize)
    ensures var (t, ok) := Committed(s, accepts, maxBatchSize, ms);
            t.durable == s.durable + (if ok && ms != [] then [ms] else [])
  {
  }

  // ----- the reported depth, over every run

  function RunCommits<M>(s: State<M>, accepts: Oracle, maxBatchSize: nat, requests: seq<seq<M>>): State<M> {
    if requests == [] then s
    else Committed(RunCommits(s, accepts, maxBatchSize, requests[..|requests| - 1]), accepts, maxBatchSize,
                   requests[|requests| - 1]).0
  }

  function After<M>(accepts: Oracle, maxBatchSize: nat, requests: seq<seq<M>>): State<M> {
    RunCommits(State(0, 0, 0, []), accepts, maxBatchSize, requests)
  }

  /** None of the first `calls` calls of the committer failed. */
  ghost predicate NoFailure(accepts: Oracle, calls: nat) {
    forall n :: 0 <= n < calls ==> accepts(n)
  }

  lemma {:induction false} FlattenAtMost<M>(cs: seq<seq<M>>, b: nat)
    requires SizesAtMost(cs, b)
    ensures |Flatten(cs)| <= |cs| * b
  {
    if cs != [] {
      FlattenAtMost(cs[..|cs| - 1], b);
      OneMoreTimes(|cs| - 1, b);
    }
  }

  lemma SizesConcat<M>(a: seq<seq<M>>, c: seq<seq<M>>, b: nat)
    requires SizesAtMost(a, b) && SizesAtMost(c, b)
    ensures SizesAtMost(a + c, b)
  {
  }

  ghost predicate Consistent<M>(s: State<M>, b: nat) {
    |s.durable| == s.batches && |Flatten(s.durable)| <= s.received && SizesAtMost(s.durable, b)
  }

  lemma TriedLength<M>(cs: seq<seq<M>>, k: nat, tried: nat)
    requires k <= tried <= |cs|
    ensures |Flatten(cs[..k])| <= |Flatten(cs[..tried])|
  {
    FlattenConcat(cs[..k], cs[k..tried]);
    assert cs[..k] + cs[k..tried] == cs[..tried];
  }

  lemma CommitKeepsConsistent<M>(s: State<M>, accepts: Oracle, maxBatchSize: nat, ms: seq<M>)
    requires Consistent(s, FlushSize(maxBatchSize))
    ensures Consistent(Committed(s, accepts, maxBatchSize, ms).0, FlushSize(maxBatchSize))
  {
    var b := FlushSize(maxBatchSize);
    var cs := Chunks(ms, b);
    var k := Successes(accepts, s.calls, |cs|);
    ChunkSizes(ms, b);
    assert SizesAtMost(cs[..k], b);
    SizesConcat(s.durable, cs[..k], b);
    FlattenConcat(s.durable, cs[..k]);
    TriedLength(cs, k, if k == |cs| then k else k + 1);
  }

  lemma CommitLosesNothing<M>(s: State<M>, accepts: Oracle, maxBatchSize: nat, ms: seq<M>)
    requires |Flatten(s.durable)| <= s.received
    requires |Flatten(s.durable)| == s.received <==> NoFailure(accepts, s.calls)
    ensures var t := Committed(s, accepts, maxBatchSize, ms).0;
            |Flatten(t.durable)| == t.received <==> NoFailure(accepts, t.calls)
  {
    var b := FlushSize(maxBatchSize);
    var cs := Chunks(ms, b);
    var k := Successes(accepts, s.calls, |cs|);
    FlattenConcat(s.durable, cs[..k]);
    if k < |cs| {
      ChunkSizes(ms, b);
      assert cs[..k + 1][..k] == cs[..k] && |cs[k]| > 0;
      assert !accepts(s.calls + k);
    }
  }

  /** Over every run the books agree, and every message received is durable if and only if no commit failed. */
  lemma {:induction false} RunConsistent<M>(accepts: Oracle, maxBatchSize: nat, requests: seq<seq<M>>)
    ensures Consistent(After(accepts, maxBatchSize, requests), FlushSize(maxBatchSize))
    ensures var s := After(accepts, maxBatchSize, requests);
            |Flatten(s.durable)| == s.received <==> NoFailure(accepts, s.calls)
  {
    if requests != [] {
      RunConsistent(accepts, maxBatchSize, requests[..|requests| - 1]);
      var before, last := After(accepts, maxBatchSize, requests[..|requests| - 1]), requests[|requests| - 1];
      CommitKeepsConsistent(before, accepts, maxBatchSize, last);
      CommitLosesNothing(before, accepts, maxBatchSize, last);
    }
  }

  /** The reported depth is at most the number of messages received but not durable. */
  ghost predicate DepthHonest<M>(accepts: Oracle, maxBatchSize: nat, requests: seq<seq<M>>) {
    var s := After(accepts, maxBatchSize, requests);
    Depth(s.received, s.batches, maxBatchSize) <= s.received - |Flatten(s.durable)|
  }

  /** With a positive limit the depth is honest in every run, and 0 throughout one without failures. */
  lemma DepthBounded<M>(accepts: Oracle, maxBatchSize: nat, requests: seq<seq<M>>)
    requires maxBatchSize >= 1
    ensures DepthHonest(accepts, maxBatchSize, requests)
    ensures var s := After(accepts, maxBatchSize, requests);
            NoFailure(accepts, s.calls) ==> Depth(s.received, s.batches, maxBatchSize) == 0
  {
    RunConsistent(accepts, maxBatchSize, requests);
    FlattenAtMost(After(accepts, maxBatchSize, requests).durable, maxBatchSize);
  }

  /** By how much the durable batches together fall short of full ones. */
  function Shortfall<M>(cs: seq<seq<M>>, b: nat): nat
    requires SizesAtMost(cs, b)
  {
    if |cs| == 0 then 0 else Shortfall(cs[..|cs| - 1], b) + (b - |cs[|cs| - 1]|)
  }

  lemma {:induction false} ShortfallExactly<M>(cs: seq<seq<M>>, b: nat)
    requires SizesAtMost(cs, b)
    ensures |Flatten(cs)| + Shortfall(cs, b) == |cs| * b
  {
    if |cs| > 0 {
      ShortfallExactly(cs[..|cs| - 1], b);
      OneMoreTimes(|cs| - 1, b);
    }
  }

  /** In every run with a positive limit, the reported depth is the number of messages received but not
      durable, less what the durable batches fall short of full ones, and not below 0. */
  lemma DepthExactly<M>(accepts: Oracle, maxBatchSize: nat, requests: seq<seq<M>>)
    requires maxBatchSize >= 1
    ensures var s := After(accepts, maxBatchSize, requests);
      && SizesAtMost(s.durable, maxBatchSize) && |Flatten(s.durable)| <= s.received
      && var lost, short := s.received - |Flatten(s.durable)|, Shortfall(s.durable, maxBatchSize);
         Depth(s.received, s.batches, maxBatchSize) == if lost > short then lost - short else 0
  {
    RunConsistent(accepts, maxBatchSize, requests);
    ShortfallExactly(After(accepts, maxBatchSize, requests).durable, maxBatchSize);
  }

  function Always(n: nat): bool {
    true
  }

  /** A limit of 0 reports every message ever received as pending, durable or not. */
  lemma DepthWithoutLimit(message: int)
    ensures var s := After(Always, 0, [[message]]);
            Flatten(s.durable) == [message] && Depth(s.received, s.batches, 0) == 1
  {
    var s: State<int> := State(0, 0, 0, []);
    var requests := [[message]];
    assert requests[..|requests| - 1] == [] && RunCommits(s, Always, 0, requests[..|requests| - 1]) == s;
    assert After(Always, 0, [[message]]) == Committed(s, Always, 0, [message]).0;
    CommittedOne(s, Always, 0, [message]);
    assert s.durable + [[message]] == requests && Flatten(requests) == [message];
  }

  /** The depth is honest in every run if and only if the limit is positive. */
  lemma DepthHonestExactly(maxBatchSize: nat)
    ensures (forall accepts: Oracle, requests: seq<seq<int>> :: DepthHonest(accepts, maxBatchSize, requests))
       <==> maxBatchSize >= 1
  {
    if maxBatchSize >= 1 {
      forall accepts: Oracle, requests: seq<seq<int>>
        ensures DepthHonest(accepts, maxBatchSize, requests)
      {
        DepthBounded(accepts, maxBatchSize, requests);
      }
    } else {
      DepthWithoutLimit(0);
      assert !DepthHonest(Always, maxBatchSize, [[0]]);
    }
  }
}
