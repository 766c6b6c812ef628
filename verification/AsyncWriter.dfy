/** The asynchronous link writer: many workers batching one bounded queue
    (internal/app/linkapp/async_writer.go).

    Every queue operation, timer or cancellation a select chooses, and every hand-over of a
    batch is one atomic event.  Accepted items are named by their tickets 0, 1, 2, ... in
    acceptance order, so that two equal items stay apart.
 */
module AsyncWriter {
  import opened Links

  datatype Phase =
    | Popping // in popBatch
    | Full(draining: bool) // batch complete, hand-over comes next
    | TimedOut
    | Canceled // popBatch returned the context's error: drain hands the batch over
    | Draining
    | LastCheck(seen: nat) // drain found the queue empty when `seen` items had been accepted
    | Exited(seen: nat)

  datatype Worker = Worker(phase: Phase, batch: seq<nat>)

  datatype State = State(
    capacity: nat,
    batchSize: nat,
    accepted: seq<ShortLink>,
    queue: seq<nat>,
    workers: seq<Worker>,
    flushed: seq<seq<nat>>)

  datatype Event =
    | Create(item: ShortLink)
    | Receive(w: nat)
    | Timer(w: nat)
    | Cancel(w: nat)
    | Flush(w: nat)
    | FoundEmpty(w: nat)
    | Exit(w: nat)

  predicate Enabled(s: State, e: Event) {
    match e
    case Create(item) => IDFromShortCode(item.code).Some? && |s.queue| < s.capacity
    case Receive(w) =>
      w < |s.workers| && (s.workers[w].phase.Popping? || s.workers[w].phase.Draining?) && s.queue != []
    case Timer(w) => w < |s.workers| && s.workers[w].phase.Popping? && s.workers[w].batch != []
    case Cancel(w) => w < |s.workers| && s.workers[w].phase.Popping?
    case Flush(w) =>
      w < |s.workers| && var p := s.workers[w].phase;
      p.Full? || p.TimedOut? || p.Canceled?
    case FoundEmpty(w) => w < |s.workers| && s.workers[w].phase.Draining? && s.queue == []
    case Exit(w) => w < |s.workers| && s.workers[w].phase.LastCheck?
  }

  function Put(s: State, w: nat, worker: Worker): State
    requires w < |s.workers|
  {
    s.(workers := s.workers[w := worker])
  }

  /** flush does nothing for an empty batch. */
  function HandOver(s: State, w: nat, next: Phase): State
    requires w < |s.workers|
  {
    var batch := s.workers[w].batch;
    Put(s.(flushed := if batch == [] then s.flushed else s.flushed + [batch]), w, Worker(next, []))
  }

  function Step(s: State, e: Event): State
    requires Enabled(s, e)
  {
    match e
    case Create(item) => s.(accepted := s.accepted + [item], queue := s.queue + [|s.accepted|])
    case Receive(w) =>
      var worker := s.workers[w];
      var batch := worker.batch + [s.queue[0]];
      Put(s.(queue := s.queue[1..]), w,
          Worker(if |batch| >= s.batchSize then Full(worker.phase.Draining?) else worker.phase, batch))
    case Timer(w) => Put(s, w, s.workers[w].(phase := TimedOut))
    case Cancel(w) => Put(s, w, s.workers[w].(phase := Canceled))
    case Flush(w) =>
      var p := s.workers[w].phase;
      HandOver(s, w, if p.Canceled? || (p.Full? && p.draining) then Draining else Popping)
    case FoundEmpty(w) => Put(s, w, s.workers[w].(phase := LastCheck(|s.accepted|)))
    case Exit(w) => HandOver(s, w, Exited(s.workers[w].phase.seen))
  }

  /** A fresh writer, as the constructor starts it. */
  predicate Init(s: State) {
    && 0 < s.capacity && 0 < s.batchSize && s.workers != []
    && s.accepted == [] && s.queue == [] && s.flushed == []
    && (forall w :: 0 <= w < |s.workers| ==> s.workers[w] == Worker(Popping, []))
  }

  /** Options that are not positive get their defaults. */
  function NewWriter(queueSize: int, batchSize: int, workers: int): (s: State)
    ensures Init(s)
    ensures s.capacity == if queueSize <= 0 then 8192 else queueSize
    ensures s.batchSize == if batchSize <= 0 then 256 else batchSize
    ensures |s.workers| == if workers <= 0 then 4 else workers
  {
    State(if queueSize <= 0 then 8192 else queueSize, if batchSize <= 0 then 256 else batchSize, [], [],
          seq(if workers <= 0 then 4 else workers, _ => Worker(Popping, [])), [])
  }

  // --------------------------------------------------------------- conservation

  function InBatches(ws: seq<Worker>): multiset<nat> {
    if ws == [] then multiset{} else InBatches(ws[..|ws| - 1]) + multiset(ws[|ws| - 1].batch)
  }

  function InFlushed(fs: seq<seq<nat>>): multiset<nat> {
    if fs == [] then multiset{} else InFlushed(fs[..|fs| - 1]) + multiset(fs[|fs| - 1])
  }

  /** The tickets handed out so far, each once. */
  function Tickets(n: nat): multiset<nat> {
    if n == 0 then multiset{} else Tickets(n - 1) + multiset{n - 1}
  }

  /** Where every accepted item is, exactly once. */
  ghost predicate Conserved(s: State) {
    Tickets(|s.accepted|) == multiset(s.queue) + InBatches(s.workers) + InFlushed(s.flushed)
  }

  predicate Ascending(b: seq<nat>) {
    forall i, j :: 0 <= i < j < |b| ==> b[i] < b[j]
  }

  /** The queue is the tail of the acceptance order. */
  ghost predicate Fifo(s: State) {
    && |s.queue| <= |s.accepted| && |s.queue| <= s.capacity
    && (forall i :: 0 <= i < |s.queue| ==> s.queue[i] == |s.accepted| - |s.queue| + i)
  }

  ghost predicate BatchOk(s: State, b: seq<nat>) {
    Ascending(b) && |b| <= s.batchSize && forall t :: t in b ==> t < |s.accepted| - |s.queue|
  }

  ghost predicate Batches(s: State) {
    && (forall w :: 0 <= w < |s.workers| ==>
          && BatchOk(s, s.workers[w].batch)
          && (s.workers[w].phase.Popping? || s.workers[w].phase.Draining? ==> |s.workers[w].batch| < s.batchSize)
          && (s.workers[w].phase.Full? ==> |s.workers[w].batch| == s.batchSize)
          && (s.workers[w].phase.TimedOut? ==> s.workers[w].batch != [])
          && (s.workers[w].phase.Exited? ==> s.workers[w].batch == [] && s.workers[w].phase.seen <= |s.accepted| - |s.queue|)
          && (s.workers[w].phase.LastCheck? ==> s.workers[w].phase.seen <= |s.accepted| - |s.queue|))
    && (forall b :: b in s.flushed ==> b != [] && BatchOk(s, b))
  }

  ghost predicate Inv(s: State) {
    0 < s.batchSize && Conserved(s) && Fifo(s) && Batches(s)
  }

  lemma {:induction false} PutBatches(ws: seq<Worker>, w: nat, worker: Worker)
    requires w < |ws|
    ensures multiset(ws[w].batch) <= InBatches(ws)
    ensures InBatches(ws[w := worker]) == InBatches(ws) - multiset(ws[w].batch) + multiset(worker.batch)
  {
    var last, ws' := |ws| - 1, ws[w := worker];
    if w == last {
      assert ws'[..last] == ws[..last];
    } else {
      PutBatches(ws[..last], w, worker);
      assert ws'[..last] == ws[..last][w := worker];
    }
  }

  lemma KeepsConserved(s: State, e: Event)
    requires Conserved(s) && Enabled(s, e)
    ensures Conserved(Step(s, e))
  {
    match e
    case Create(item) => CreateConserves(s, item);
    case Receive(w) => ReceiveConserves(s, w);
    case Timer(w) => PutConserves(s, w, TimedOut);
    case Cancel(w) => PutConserves(s, w, Canceled);
    case FoundEmpty(w) => PutConserves(s, w, LastCheck(|s.accepted|));
    case Flush(w) => FlushConserves(s, w);
    case Exit(w) => HandOverConserves(s, w, Exited(s.workers[w].phase.seen));
  }

  lemma CreateConserves(s: State, item: ShortLink)
    requires Conserved(s) && Enabled(s, Create(item))
    ensures Conserved(Step(s, Create(item)))
  {
    assert multiset(s.queue + [|s.accepted|]) == multiset(s.queue) + multiset([|s.accepted| as nat]);
  }

  lemma PutConserves(s: State, w: nat, p: Phase)
    requires Conserved(s) && w < |s.workers|
    ensures Conserved(Put(s, w, s.workers[w].(phase := p)))
  {
    PutBatches(s.workers, w, s.workers[w].(phase := p));
  }

  lemma ReceiveConserves(s: State, w: nat)
    requires Conserved(s) && Enabled(s, Receive(w))
    ensures Conserved(Step(s, Receive(w)))
  {
    assert s.queue == [s.queue[0]] + s.queue[1..];
    PutBatches(s.workers, w, Step(s, Receive(w)).workers[w]);
  }

  lemma FlushConserves(s: State, w: nat)
    requires Conserved(s) && Enabled(s, Flush(w))
    ensures Conserved(Step(s, Flush(w)))
  {
    HandOverConserves(s, w, Popping);
    HandOverConserves(s, w, Draining);
  }

  lemma HandOverConserves(s: State, w: nat, next: Phase)
    requires Conserved(s) && w < |s.workers|
    ensures Conserved(HandOver(s, w, next))
  {
    var batch := s.workers[w].batch;
    PutBatches(s.workers, w, Worker(next, []));
    assert (s.flushed + [batch])[..|s.flushed|] == s.flushed;
  }

  lemma KeepsInv(s: State, e: Event)
    requires Inv(s) && Enabled(s, e)
    ensures Inv(Step(s, e))
  {
    KeepsConserved(s, e);
    KeepsBatches(s, e);
  }

  lemma KeepsBatches(s: State, e: Event)
    requires 0 < s.batchSize && Fifo(s) && Batches(s) && Enabled(s, e)
    ensures Fifo(Step(s, e)) && Batches(Step(s, e))
  {
    if e.Receive? {
      ReceiveKeepsBatches(s, e.w);
    }
  }

  lemma ReceiveKeepsBatches(s: State, w: nat)
    requires 0 < s.batchSize && Fifo(s) && Batches(s) && Enabled(s, Receive(w))
    ensures Batches(Step(s, Receive(w)))
  {
    var b := s.workers[w].batch;
    assert forall i :: 0 <= i < |b| ==> b[i] in b;
    assert BatchOk(s, b);
  }

  // ------------------------------------------------------------------ all runs

  predicate Runs(s: State, es: seq<Event>)
    decreases |es|
  {
    es == [] || (Enabled(s, es[0]) && Runs(Step(s, es[0]), es[1..]))
  }

  function Exec(s: State, es: seq<Event>): State
    requires Runs(s, es)
    decreases |es|
  {
    if es == [] then s else Exec(Step(s, es[0]), es[1..])
  }

  lemma {:induction false} InvHolds(s: State, es: seq<Event>)
    requires Inv(s) && Runs(s, es)
    ensures Inv(Exec(s, es))
    decreases |es|
  {
    if es != [] {
      KeepsInv(s, es[0]);
      InvHolds(Step(s, es[0]), es[1..]);
    }
  }

  lemma {:induction false} FreshBatches(ws: seq<Worker>)
    requires forall w :: 0 <= w < |ws| ==> ws[w].batch == []
    ensures InBatches(ws) == multiset{}
  {
    if ws != [] {
      FreshBatches(ws[..|ws| - 1]);
    }
  }

  lemma {:induction false} TicketsCount(n: nat, t: nat)
    ensures Tickets(n)[t] == if t < n then 1 else 0
  {
    if n > 0 {
      TicketsCount(n - 1, t);
    }
  }

  /** In every interleaving: each accepted item is in exactly one place, exactly once, and each
      flushed batch is nonempty, at most batchSize long and in acceptance order. */
  lemma EveryItemIsSomewhereOnce(s: State, es: seq<Event>, t: nat)
    requires Init(s) && Runs(s, es)
    ensures var z := Exec(s, es);
            && (multiset(z.queue) + InBatches(z.workers) + InFlushed(z.flushed))[t] == (if t < |z.accepted| then 1 else 0)
            && (forall b :: b in z.flushed ==> b != [] && |b| <= z.batchSize && Ascending(b))
  {
    FreshBatches(s.workers);
    InvHolds(s, es);
    TicketsCount(|Exec(s, es).accepted|, t);
  }

  /** Once all workers have exited, every item accepted before any worker's final empty check
      has been flushed: what is left in the queue came after the last of them. */
  lemma ShutdownFlushesAll(s: State, es: seq<Event>, w: nat, t: nat)
    requires Init(s) && Runs(s, es)
    requires var z := Exec(s, es);
             && (forall v :: 0 <= v < |z.workers| ==> z.workers[v].phase.Exited?)
             && w < |z.workers| && t < z.workers[w].phase.seen
    ensures InFlushed(Exec(s, es).flushed)[t] == 1
  {
    var z := Exec(s, es);
    FreshBatches(s.workers);
    InvHolds(s, es);
    TicketsCount(|z.accepted|, t);
    FreshBatches(z.workers);
    assert t !in z.queue;
  }

  // ------------------------------------------------------- when batches go out

  predicate Grows(s: State, e: Event)
    requires Enabled(s, e)
  {
    |Step(s, e).flushed| > |s.flushed|
  }

  /** What is handed over is one worker's whole batch; it is full unless the worker's timer has
      run out or the context is over, and only then may it be handed over short. */
  lemma ShortOnlyWhenDue(s: State, e: Event)
    requires Inv(s) && Enabled(s, e) && Grows(s, e)
    ensures (e.Flush? || e.Exit?) && Step(s, e).flushed == s.flushed + [s.workers[e.w].batch]
    ensures Step(s, e).workers[e.w].batch == []
    ensures |s.workers[e.w].batch| == s.batchSize || s.workers[e.w].phase.TimedOut? || s.workers[e.w].phase.Canceled? ||
            s.workers[e.w].phase.LastCheck?
  {
  }

  /** At any time a valid item may arrive while there is room, the context of a worker may be
      over, and the timer of one with a first item may run out. */
  lemma MayBecomeDue(s: State, w: nat, item: ShortLink)
    requires w < |s.workers| && s.workers[w].phase.Popping? && IDFromShortCode(item.code).Some?
    ensures |s.queue| < s.capacity ==> Enabled(s, Create(item)) && Step(s, Create(item)).accepted == s.accepted + [item]
    ensures Enabled(s, Cancel(w)) && IsDraining(Step(s, Cancel(w)).workers[w].phase)
    ensures s.workers[w].batch != [] ==>
              && Enabled(s, Timer(w)) && Enabled(Step(s, Timer(w)), Flush(w))
              && Step(Step(s, Timer(w)), Flush(w)).workers[w] == Worker(Popping, [])
              && Step(Step(s, Timer(w)), Flush(w)).flushed == s.flushed + [s.workers[w].batch]
  {
  }

  /** A worker that is not due takes the next item as soon as there is one, and is due to hand
      over exactly when that fills its batch. */
  lemma TakesUntilFull(s: State, w: nat)
    requires Inv(s) && w < |s.workers| && (s.workers[w].phase.Popping? || s.workers[w].phase.Draining?) && s.queue != []
    ensures Enabled(s, Receive(w))
    ensures var t := Step(s, Receive(w));
            && t.workers[w].batch == s.workers[w].batch + [s.queue[0]] && s.queue == [s.queue[0]] + t.queue
            && (t.workers[w].phase.Full? <==> |s.workers[w].batch| + 1 == s.batchSize)
            && (!t.workers[w].phase.Full? ==> t.workers[w].phase == s.workers[w].phase)
            && (t.workers[w].phase.Full? ==> Enabled(t, Flush(w)))
  {
  }

  lemma HandOverFlushes(s: State, w: nat, next: Phase)
    requires w < |s.workers|
    ensures InFlushed(HandOver(s, w, next).flushed) == InFlushed(s.flushed) + multiset(s.workers[w].batch)
  {
    var batch := s.workers[w].batch;
    assert (s.flushed + [batch])[..|s.flushed|] == s.flushed;
  }

  /** The context of the worker is over. */
  predicate IsDraining(p: Phase) {
    p.Canceled? || p.Draining? || (p.Full? && p.draining)
  }

  /** Once its context is over, a worker's own steps hand over its batch and all that is queued,
      and then it exits. */
  lemma {:induction false} CanceledWorkerDrains(s: State, w: nat) returns (es: seq<Event>)
    requires 0 < s.batchSize && w < |s.workers| && IsDraining(s.workers[w].phase)
    ensures Runs(s, es) && forall e :: e in es ==> !e.Create? && e.w == w
    ensures var z := Exec(s, es);
            && z.queue == [] && z.accepted == s.accepted
            && z.workers == s.workers[w := Worker(Exited(|s.accepted|), [])]
            && InFlushed(z.flushed) == InFlushed(s.flushed) + multiset(s.workers[w].batch) + multiset(s.queue)
    decreases |s.queue|, if s.workers[w].phase.Draining? then 0 else 1
  {
    if !s.workers[w].phase.Draining? {
      HandOverFlushes(s, w, Draining);
      assert Step(s, Flush(w)) == HandOver(s, w, Draining);
      es := CanceledWorkerDrains(HandOver(s, w, Draining), w);
      es := [Flush(w)] + es;
    } else if s.queue != [] {
      var t := Step(s, Receive(w));
      es := CanceledWorkerDrains(t, w);
      es := [Receive(w)] + es;
      assert s.queue == [s.queue[0]] + t.queue;
    } else {
      es := EmptyQueueExits(s, w);
    }
  }

  lemma EmptyQueueExits(s: State, w: nat) returns (es: seq<Event>)
    requires w < |s.workers| && s.workers[w].phase.Draining? && s.queue == []
    ensures Runs(s, es) && forall e :: e in es ==> !e.Create? && e.w == w
    ensures var z := Exec(s, es);
            && z.queue == [] && z.accepted == s.accepted
            && z.workers == s.workers[w := Worker(Exited(|s.accepted|), [])]
            && InFlushed(z.flushed) == InFlushed(s.flushed) + multiset(s.workers[w].batch)
  {
    var t := Step(s, FoundEmpty(w));
    HandOverFlushes(t, w, Exited(|s.accepted|));
    es := [FoundEmpty(w), Exit(w)];
    assert es[1..] == [Exit(w)] && es[1..][1..] == [];
    assert Exec(t, [Exit(w)]) == Step(t, Exit(w));
  }
}
