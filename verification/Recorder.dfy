/** The visit recorder: producers put events on a bounded queue, one goroutine turns them
    into logs, batches and hands them over (internal/app/statapp/recorder.go). */
module Recorder {
  import opened Base62
  import opened Links
  import opened Snowflake

  datatype VisitEvent = VisitEvent(code: string, ip: string, userAgent: string, referer: string, visitedAt: Time)

  datatype VisitLog = VisitLog(id: uint64, code: string, visitedAt: Time, ip: string, userAgent: string, referer: string)

  datatype Outcome = Accepted | Canceled | QueueFull

  /** What may happen while the goroutine runs: a producer calls Record, or one of the cases
      of the select is chosen. */
  datatype Signal =
    | Arrival(event: VisitEvent, now: Time, done: bool, preferDone: bool)
    | Take
    | Tick

  function ToVisitLog(event: VisitEvent, id: uint64): VisitLog {
    VisitLog(id, event.code, event.visitedAt, event.ip, event.userAgent, event.referer)
  }

  function Flat(batches: seq<seq<VisitLog>>): seq<VisitLog> {
    if batches == [] then [] else Flat(batches[..|batches| - 1]) + batches[|batches| - 1]
  }

  /** The logs of the first events, each with the id of its own call to the generator. */
  ghost function Logged(events: seq<VisitEvent>, g: Generator, calls: seq<Call>): (logs: seq<VisitLog>)
    requires IsRun(g, calls) && |calls| <= |events|
    ensures |logs| == |calls|
  {
    seq(|calls|, i requires 0 <= i < |calls| => ToVisitLog(events[i], Issued(g, calls, i)))
  }

  class Recorder {
    var queue: seq<VisitEvent>
    var batch: seq<VisitLog>
    var flushed: seq<seq<VisitLog>>
    ghost var accepted: seq<VisitEvent>
    ghost var calls: seq<Call> // to the generator, since it was in state `start`
    ghost const start: Generator
    const ids: SnowflakeGenerator
    const clock: Clock
    const hasRepo: bool
    const queueSize: nat
    const batchSize: nat

    /** The generator belongs to this recorder alone. */
    ghost predicate Numbered()
      reads this, ids
    {
      && ids.Valid() && clock.Advances()
      && IsRun(start, calls) && After(start, calls) == ids.State()
      && |calls| <= |accepted| && queue == accepted[|calls|..]
    }

    /** With a repository, the flushed batches, the batch and the queue spell exactly the
        accepted events, in order and each with its own id. */
    ghost predicate Spelled()
      reads this, ids
    {
      && Numbered()
      && 0 < batchSize && 0 < queueSize
      && |queue| <= queueSize && |batch| <= batchSize
      && (hasRepo ==> Flat(flushed) + batch == Logged(accepted, start, calls))
      && (!hasRepo ==> flushed == [])
      && (forall b :: b in flushed ==> 0 < |b| <= batchSize)
    }

    ghost predicate Valid()
      reads this, ids
    {
      Spelled() && |batch| < batchSize
    }

    constructor (ids: SnowflakeGenerator, clock: Clock, hasRepo: bool, queueSize: int, batchSize: int)
      requires ids.Valid() && clock.Advances()
      ensures Valid() && accepted == [] && calls == [] && flushed == []
      ensures this.ids == ids && this.clock == clock && start == ids.State() && this.hasRepo == hasRepo
      ensures this.queueSize == (if queueSize <= 0 then 4096 else queueSize)
      ensures this.batchSize == (if batchSize <= 0 then 200 else batchSize)
    {
      this.ids, this.clock, this.hasRepo := ids, clock, hasRepo;
      this.queueSize := if queueSize <= 0 then 4096 else queueSize;
      this.batchSize := if batchSize <= 0 then 200 else batchSize;
      queue, batch, flushed, accepted, calls, start := [], [], [], [], [], ids.State();
    }

    /** Never blocks.  `done` says whether the caller's context is over; a select with both
        the queue and the context ready may choose either. */
    method Record(event: VisitEvent, now: Time, done: bool, preferDone: bool) returns (outcome: Outcome)
      requires Valid()
      modifies this`queue, this`accepted
      ensures Valid()
      ensures outcome == Accepted ==>
                accepted == old(accepted) + [if event.visitedAt == 0 then event.(visitedAt := now) else event]
      ensures outcome != Accepted ==> accepted == old(accepted) && queue == old(queue)
      ensures outcome == QueueFull <==> |old(queue)| == queueSize && !done
      ensures outcome == Canceled ==> done
    {
      var e := if event.visitedAt == 0 then event.(visitedAt := now) else event;
      if |queue| < queueSize && !(done && preferDone) {
        queue := queue + [e];
        accepted := accepted + [e];
        outcome := Accepted;
      } else if done {
        outcome := Canceled;
      } else {
        outcome := QueueFull;
      }
    }

    method Flush()
      requires Spelled()
      modifies this`batch, this`flushed
      ensures Valid() && batch == []
      ensures flushed == old(flushed) + if hasRepo && old(batch) != [] then [old(batch)] else []
    {
      if batch == [] || !hasRepo {
        batch := [];
        return;
      }
      assert (flushed + [batch])[..|flushed|] == flushed;
      flushed := flushed + [batch];
      batch := [];
    }

    /** Takes the next event and an id for it. */
    method NextLog() returns (log: VisitLog)
      requires Numbered() && queue != []
      modifies this`queue, this`calls, ids, clock
      ensures Numbered() && queue == old(queue)[1..] && |calls| == |old(calls)| + 1
      ensures Logged(accepted, start, calls) == old(Logged(accepted, start, calls)) + [log]
    {
      ghost var from := clock.pos;
      assert clock.Passes(from, ids.lastMs);
      var id := ids.NextID(clock);
      ghost var call := Call(clock.unixMilli(from) - EPOCH_UNIX, clock.unixMilli(clock.pos - 1) - EPOCH_UNIX);
      OneMoreCall(start, calls, call);
      calls := calls + [call];
      log := ToVisitLog(queue[0], id);
      queue := queue[1..];
    }

    /** One event goes from the queue to the batch, which is handed over when it is full. */
    method Receive()
      requires Valid() && queue != []
      modifies this`queue, this`batch, this`flushed, this`calls, ids, clock
      ensures Valid() && queue == old(queue)[1..]
      ensures |old(batch)| + 1 < batchSize ==> |batch| == |old(batch)| + 1 && old(batch) <= batch && flushed == old(flushed)
      ensures |old(batch)| + 1 == batchSize ==> batch == [] && |flushed| == |old(flushed)| + if hasRepo then 1 else 0
    {
      var log := NextLog();
      assert hasRepo ==> Flat(flushed) + (batch + [log]) == (Flat(flushed) + batch) + [log];
      batch := batch + [log];
      if |batch| >= batchSize {
        Flush();
      }
    }

    /** One turn of the loop, or one call of a producer.  A tick after cancellation is nothing. */
    method Turn(signal: Signal, canceled: bool)
      requires Valid()
      modifies this, ids, clock
      ensures Valid() && old(accepted) <= accepted
      ensures signal.Arrival? ==> flushed == old(flushed) && batch == old(batch)
      ensures signal == Take ==> |queue| == if old(queue) == [] then 0 else |old(queue)| - 1
      ensures signal == Tick && !canceled ==>
                batch == [] && flushed == old(flushed) + if hasRepo && old(batch) != [] then [old(batch)] else []
    {
      match signal
      case Arrival(event, now, done, preferDone) =>
        var _ := Record(event, now, done, preferDone);
      case Take =>
        if queue != [] {
          Receive();
        }
      case Tick =>
        if !canceled {
          Flush();
        }
    }

    /** After cancellation: the queue is emptied while producers go on, up to the check that
        finds it empty; then the rest of the batch is handed over. */
    method Drain(schedule: seq<Signal>)
      requires Valid()
      modifies this, ids, clock
      ensures Valid() && queue == [] && batch == [] && old(accepted) <= accepted
    {
      for i := 0 to |schedule|
        invariant Valid() && old(accepted) <= accepted
      {
        Turn(schedule[i], true);
      }
      while queue != []
        invariant Valid() && old(accepted) <= accepted
        decreases |queue|
      {
        Receive();
      }
      Flush();
    }

    /** What producers still record when the goroutine has ended stays in the queue. */
    method RecordLate(late: seq<Signal>)
      requires Valid()
      modifies this`queue, this`accepted
      ensures Valid() && old(accepted) <= accepted && |accepted| <= |old(accepted)| + |late|
    {
      for i := 0 to |late|
        invariant Valid() && old(accepted) <= accepted && |accepted| <= |old(accepted)| + i
      {
        if late[i].Arrival? {
          var _ := Record(late[i].event, late[i].now, late[i].done, late[i].preferDone);
        }
      }
    }

    /** The goroutine from its start to its end, and after: what happens before the context is
        canceled, then up to the last check of the queue, which finds it empty, and then.  With
        a repository, the events accepted before that check, `taken` of them, have been handed
        over, each once, in order, with ids that are nonzero and strictly increasing unless the
        generator's clock has come to 2^42 milliseconds.  Those accepted later stay in the queue. */
    method Run(schedule: seq<Signal>, drain: seq<Signal>, late: seq<Signal>) returns (ghost taken: nat)
      requires Valid()
      modifies this, ids, clock
      ensures Valid() && batch == []
      ensures taken <= |accepted| <= taken + |late| && old(accepted) <= accepted[..taken] && queue == accepted[taken..]
      ensures hasRepo ==> Tells(Flat(flushed), accepted[..taken])
      ensures hasRepo && ids.lastMs < TWO_42 ==> IdsIncrease(Flat(flushed))
    {
      for i := 0 to |schedule|
        invariant Valid() && old(accepted) <= accepted
      {
        Turn(schedule[i], false);
      }
      Drain(drain);
      taken := |accepted|;
      AllToldAtLastCheck();
      RecordLate(late);
    }

    /** With the queue and the batch empty, the batches handed over tell all that was accepted. */
    lemma AllToldAtLastCheck()
      requires Valid() && queue == [] && batch == []
      ensures |calls| == |accepted|
      ensures hasRepo ==> Tells(Flat(flushed), accepted)
      ensures hasRepo && ids.lastMs < TWO_42 ==> IdsIncrease(Flat(flushed))
    {
      assert |calls| == |accepted|;
      if hasRepo {
        assert Flat(flushed) + [] == Flat(flushed);
        if ids.lastMs < TWO_42 {
          LoggedIdsIncrease(accepted, start, calls);
        }
      }
    }
  }

  /** The logs tell the events, one each, in order. */
  predicate Tells(logs: seq<VisitLog>, events: seq<VisitEvent>) {
    |logs| == |events| && forall i :: 0 <= i < |logs| ==>
      && logs[i].code == events[i].code && logs[i].visitedAt == events[i].visitedAt
      && logs[i].ip == events[i].ip && logs[i].userAgent == events[i].userAgent && logs[i].referer == events[i].referer
  }

  predicate IdsIncrease(logs: seq<VisitLog>) {
    && (forall i :: 0 <= i < |logs| ==> 0 < logs[i].id)
    && forall i, j :: 0 <= i < j < |logs| ==> logs[i].id < logs[j].id
  }

  /** Numbered by a run of the generator that stays below 2^42 milliseconds, logs carry
      strictly increasing ids. */
  lemma LoggedIdsIncrease(events: seq<VisitEvent>, g: Generator, calls: seq<Call>)
    requires IsRun(g, calls) && |calls| <= |events| && After(g, calls).lastMs < TWO_42
    ensures IdsIncrease(Logged(events, g, calls))
  {
    forall i, j | 0 <= i <= j < |calls|
      ensures 0 < Issued(g, calls, i)
      ensures i < j ==> Issued(g, calls, i) < Issued(g, calls, j)
    {
      IdsStrictlyIncrease(g, calls, i, j);
    }
  }
}
