/** Whole runs of the read path: what requests are answered, by their own load or by one they
    share, and how that relates to the table (internal/app/linkapp/service.go).
 */
module ReadRuns {
  import opened Options
  import opened Base62
  import opened Links
  import opened RedisStore
  import opened Tables
  import opened ReadPath
  import Bloom = BloomProtocol

  ghost predicate Runs(s: State, es: seq<Event>)
    decreases |es|
  {
    es == [] || (Enabled(s, es[0]) && Runs(Step(s, es[0]), es[1..]))
  }

  ghost function Exec(s: State, es: seq<Event>): State
    requires Runs(s, es)
    decreases |es|
  {
    if es == [] then s else Exec(Step(s, es[0]), es[1..])
  }

  /** The state in which event k of a run finds the system. */
  ghost function Before(s: State, es: seq<Event>, k: nat): State
    requires Runs(s, es) && k <= |es|
    decreases k
  {
    if k == 0 then s else Before(Step(s, es[0]), es[1..], k - 1)
  }

  /** Processes start, over whatever filter there is; Redis may hold items of earlier ones. */
  ghost predicate Start(s: State) {
    Bloom.Start(s.bloom) && CachesOk(s) && s.requests == map[] && s.flights == map[] && s.lazyQueue == []
  }

  lemma StartIsInv(s: State)
    requires Start(s)
    ensures Inv(s)
  {
    Bloom.StartIsSound(s.bloom);
  }

  lemma {:induction false} RunReaches(s: State, es: seq<Event>, k: nat)
    requires Runs(s, es) && k <= |es|
    ensures k == |es| ==> Before(s, es, k) == Exec(s, es)
    ensures k < |es| ==> Enabled(Before(s, es, k), es[k]) && Before(s, es, k + 1) == Step(Before(s, es, k), es[k])
    decreases k
  {
    if k > 0 {
      RunReaches(Step(s, es[0]), es[1..], k - 1);
    } else if es != [] {
      assert Before(Step(s, es[0]), es[1..], 0) == Step(s, es[0]);
    }
  }

  lemma {:induction false} InvHolds(s: State, es: seq<Event>, k: nat)
    requires Inv(s) && Runs(s, es) && k <= |es|
    ensures Inv(Before(s, es, k))
    decreases k
  {
    if k > 0 {
      KeepsInv(s, es[0]);
      InvHolds(Step(s, es[0]), es[1..], k - 1);
    }
  }

  lemma ForwardAgain(a: Bloom.State, b: Bloom.State, c: Bloom.State)
    requires Forward(a, b) && Forward(b, c)
    ensures Forward(a, c)
  {
  }

  lemma {:induction false} ForwardHolds(s: State, es: seq<Event>, k: nat)
    requires Inv(s) && Runs(s, es) && k <= |es|
    ensures Forward(s.bloom, Before(s, es, k).bloom)
    decreases k
  {
    if k > 0 {
      var s' := Step(s, es[0]);
      KeepsInv(s, es[0]);
      OnlyExpiredRowsGo(s, es[0]);
      ForwardHolds(s', es[1..], k - 1);
      ForwardAgain(s.bloom, s'.bloom, Before(s, es, k).bloom);
    }
  }

  lemma {:induction false} ForwardBetween(s: State, es: seq<Event>, j: nat, k: nat)
    requires Inv(s) && Runs(s, es) && j <= k <= |es|
    ensures Forward(Before(s, es, j).bloom, Before(s, es, k).bloom)
    decreases j
  {
    if j == 0 {
      ForwardHolds(s, es, k);
    } else {
      KeepsInv(s, es[0]);
      ForwardBetween(Step(s, es[0]), es[1..], j - 1, k - 1);
    }
  }

  /** In every reachable state a cached item is its row, or has expired. */
  lemma CachesStayCoherent(s: State, es: seq<Event>, key: CacheKey)
    requires Start(s) && Runs(s, es) && key in Exec(s, es).caches
    ensures var t := Exec(s, es);
            && t.caches[key].code == key.1
            && (t.caches[key] in t.Table() || t.caches[key].IsExpired(t.Clock()))
  {
    StartIsInv(s);
    InvHolds(s, es, |es|);
    RunReaches(s, es, |es|);
  }

  // ------------------------------------------------- the filter along a run

  /** The main filter was right at the start, or a rebuild has won before event k. */
  ghost predicate FilterReady(s: State, es: seq<Event>, k: nat)
    requires Runs(s, es) && k <= |es|
    decreases k
  {
    Bloom.Main(s.bloom) || (k > 0 && (
      (es[0].FilterStep? && Bloom.Wins(s.bloom, es[0].e)) || FilterReady(Step(s, es[0]), es[1..], k - 1)))
  }

  lemma {:induction false} MainHolds(s: State, es: seq<Event>, k: nat)
    requires Inv(s) && Runs(s, es) && k <= |es| && FilterReady(s, es, k)
    ensures Bloom.Main(Before(s, es, k).bloom)
    decreases k
  {
    if k > 0 {
      KeepsInv(s, es[0]);
      if Bloom.Main(s.bloom) || (es[0].FilterStep? && Bloom.Wins(s.bloom, es[0].e)) {
        KeepsMain(s, es[0]);
      }
      MainHolds(Step(s, es[0]), es[1..], k - 1);
    }
  }

  ghost function ProtocolRun(s: State, es: seq<Event>): seq<Bloom.Event>
    requires Runs(s, es)
    decreases |es|
  {
    if es == [] then []
    else
      var rest := ProtocolRun(Step(s, es[0]), es[1..]);
      match ProtocolEvent(s, es[0])
      case Some(b) => [b] + rest
      case None => rest
  }

  /** Every run of the read path carries a run of the filter protocol. */
  lemma {:induction false} RunsTheProtocol(s: State, es: seq<Event>)
    requires Inv(s) && Runs(s, es)
    ensures Bloom.Runs(s.bloom, ProtocolRun(s, es)) && Bloom.Exec(s.bloom, ProtocolRun(s, es)) == Exec(s, es).bloom
    decreases |es|
  {
    if es != [] {
      KeepsInv(s, es[0]);
      StepsTheProtocol(s, es[0]);
      RunsTheProtocol(Step(s, es[0]), es[1..]);
      assert ProtocolEvent(s, es[0]).Some? ==> ProtocolRun(s, es)[1..] == ProtocolRun(Step(s, es[0]), es[1..]);
    }
  }

  /** A link is unadded exactly when its Add has not reached the main filter, has failed, or
      the run has lost its code. */
  lemma UnaddedExactlyWhen(s: State, es: seq<Event>, link: uint64)
    requires Start(s) && Runs(s, es) && link in Exec(s, es).bloom.adders
    ensures Bloom.Runs(s.bloom, ProtocolRun(s, es))
    ensures var a := Exec(s, es).bloom.adders[link];
            Unadded(a) <==> a.phase.Committed? || a.phase.GotKeys? || a.phase.AddFailed? || Bloom.Lost(s.bloom, ProtocolRun(s, es), link)
  {
    StartIsInv(s);
    RunsTheProtocol(s, es);
    Bloom.DroppedExactlyWhen(s.bloom, ProtocolRun(s, es), link);
  }

  // ------------------------------------------------------------ own answers

  predicate IsAnswered(s: State, id: nat) {
    id in s.requests && s.requests[id].Resolve? && s.requests[id].stage.Answered?
  }

  lemma {:induction false} BecomesBetween(s: State, es: seq<Event>, j: nat, k: nat, id: nat)
    requires Runs(s, es) && j <= k <= |es| && id in Before(s, es, j).requests
    ensures id in Before(s, es, k).requests
    ensures Becomes(Before(s, es, j).requests[id], Before(s, es, k).requests[id])
    decreases k
  {
    if j > 0 {
      BecomesBetween(Step(s, es[0]), es[1..], j - 1, k - 1, id);
    } else if k > 0 {
      var s' := Step(s, es[0]);
      RequestBecomes(s, es[0], id);
      BecomesBetween(s', es[1..], 0, k - 1, id);
      BecomesAgain(s.requests[id], s'.requests[id], Before(s, es, k).requests[id]);
    }
  }

  lemma BecomesAgain(a: Request, b: Request, c: Request)
    requires Becomes(a, b) && Becomes(b, c)
    ensures Becomes(a, c)
  {
  }

  lemma {:induction false} AnswerWasSettled(s: State, es: seq<Event>, m: nat, id: nat) returns (k: nat)
    requires Runs(s, es) && m <= |es| && !IsAnswered(s, id) && IsAnswered(Before(s, es, m), id)
    ensures k < m && Settles(Before(s, es, k), es[k], id)
    ensures Step(Before(s, es, k), es[k]).requests[id].code == Before(s, es, m).requests[id].code
    ensures Step(Before(s, es, k), es[k]).requests[id].stage == Before(s, es, m).requests[id].stage
    decreases m
  {
    var s' := Step(s, es[0]);
    if IsAnswered(s', id) {
      k := 0;
      assert Before(s', es[1..], 0) == s';
      BecomesBetween(s', es[1..], 0, m - 1, id);
      if id in s.requests {
        RequestBecomes(s, es[0], id);
      }
    } else {
      k := AnswerWasSettled(s', es[1..], m - 1, id);
      k := k + 1;
    }
  }

  /** What a Resolve that loads for itself is answered agrees with a direct read of the table
      at a moment between its start and its return, if and only if it was not the filter's no,
      at that moment, to an active link; which, once the filter is ready, is a link whose Add
      was pending, failed or dropped. */
  lemma ResolveIsLinearizable(s: State, es: seq<Event>, id: nat) returns (k: nat)
    requires Start(s) && Runs(s, es) && IsAnswered(Exec(s, es), id)
    ensures k < |es| && Settles(Before(s, es, k), es[k], id)
    ensures var now, r := Before(s, es, k), Exec(s, es).requests[id];
            && (Agrees(now.Table(), r.code, now.Clock(), r.stage.result) <==> !FilterDenies(now, es[k], id))
            && (FilterReady(s, es, k) ==> (FilterDenies(now, es[k], id) <==> FilterMisses(now, es[k], id)))
  {
    StartIsInv(s);
    RunReaches(s, es, |es|);
    k := AnswerWasSettled(s, es, |es|, id);
    InvHolds(s, es, k);
    SettledAnswerAgrees(Before(s, es, k), es[k], id);
    if FilterReady(s, es, k) {
      MainHolds(s, es, k);
      DenialIsMiss(Before(s, es, k), es[k], id);
    }
  }

  // --------------------------------------------------------- shared answers

  predicate IsShared(s: State, id: nat) {
    id in s.requests && s.requests[id].Resolve? && s.requests[id].stage.Shared?
  }

  /** The leader of the load the request waits for or has been given the result of. */
  predicate Follows(s: State, id: nat, leader: nat) {
    && id in s.requests && s.requests[id].Resolve?
    && (s.requests[id].stage.Waiting? || s.requests[id].stage.Shared?) && s.requests[id].stage.leader == leader
  }

  lemma JoinsToFollow(s: State, e: Event, id: nat, leader: nat)
    requires Enabled(s, e) && !Follows(s, id, leader) && Follows(Step(s, e), id, leader)
    ensures e == Join(id) && Flying(s, GroupOf(s.requests[id]), leader)
    ensures GroupOf(Step(s, e).requests[id]) == GroupOf(s.requests[id])
  {
    if !OfFlight(e) {
      NoneNewlyShares(s, e, id);
    }
  }

  lemma {:induction false} FollowerJoined(s: State, es: seq<Event>, m: nat, id: nat, leader: nat) returns (j: nat)
    requires Runs(s, es) && m <= |es| && !Follows(s, id, leader) && Follows(Before(s, es, m), id, leader)
    ensures j < m && es[j] == Join(id) && Flying(Before(s, es, j), GroupOf(Before(s, es, m).requests[id]), leader)
    decreases m
  {
    var s' := Step(s, es[0]);
    if Follows(s', id, leader) {
      j := 0;
      JoinsToFollow(s, es[0], id, leader);
      assert Before(s', es[1..], 0) == s';
      BecomesBetween(s', es[1..], 0, m - 1, id);
    } else {
      j := FollowerJoined(s', es[1..], m - 1, id, leader);
      j := j + 1;
    }
  }

  lemma LeadsToFly(s: State, e: Event, key: CacheKey, leader: nat)
    requires Enabled(s, e) && !Flying(s, key, leader) && Flying(Step(s, e), key, leader)
    ensures e == Lead(leader) && IsLeader(Step(s, e), leader, key) && Loading(Step(s, e).requests[leader].stage)
  {
  }

  lemma {:induction false} FlightWasLed(s: State, es: seq<Event>, m: nat, key: CacheKey, leader: nat) returns (i: nat)
    requires Runs(s, es) && m <= |es| && !Flying(s, key, leader) && Flying(Before(s, es, m), key, leader)
    ensures i < m && es[i] == Lead(leader)
    ensures IsLeader(Before(s, es, i + 1), leader, key) && Loading(Before(s, es, i + 1).requests[leader].stage)
    decreases m
  {
    var s' := Step(s, es[0]);
    if Flying(s', key, leader) {
      i := 0;
      LeadsToFly(s, es[0], key, leader);
      assert Before(s', es[1..], 0) == s';
    } else {
      i := FlightWasLed(s', es[1..], m - 1, key, leader);
      i := i + 1;
    }
  }

  lemma LoadersPassedTheFilter(q: Request, s: State, e: Event, leader: nat)
    requires q.Resolve? && Loading(q.stage) && leader in s.requests && Becomes(q, s.requests[leader]) && Enabled(s, e)
    ensures !FilterDenies(s, e, leader)
  {
  }

  /** A leader settles its answer after it has entered the group, and not by the filter. */
  lemma LeaderSettledInFlight(s: State, es: seq<Event>, i: nat, k: nat, leader: nat)
    requires Runs(s, es) && i < |es| && k < |es| && Settles(Before(s, es, k), es[k], leader)
    requires leader in Before(s, es, i + 1).requests && Before(s, es, i + 1).requests[leader].Resolve?
    requires Loading(Before(s, es, i + 1).requests[leader].stage)
    ensures i < k && !FilterDenies(Before(s, es, k), es[k], leader)
  {
    if k <= i {
      SettledIsFinal(s, es, k, i + 1, leader);
      assert false;
    } else {
      BecomesBetween(s, es, i + 1, k, leader);
      LoadersPassedTheFilter(Before(s, es, i + 1).requests[leader], Before(s, es, k), es[k], leader);
    }
  }

  lemma SettledIsFinal(s: State, es: seq<Event>, k: nat, m: nat, id: nat)
    requires Runs(s, es) && k < m <= |es| && Settles(Before(s, es, k), es[k], id)
    ensures IsAnswered(Before(s, es, m), id)
  {
    RunReaches(s, es, k);
    BecomesBetween(s, es, k + 1, m, id);
  }

  /** What a Resolve is given that shares another's load was settled, for the same code in the
      same process, by a step of the leader's within the flight it joined, and agreed with the
      table at that moment.  (The filter plays no part in it.) */
  lemma SharedAnswerAgrees(s: State, es: seq<Event>, id: nat) returns (i: nat, j: nat, k: nat)
    requires Start(s) && Runs(s, es) && IsShared(Exec(s, es), id)
    ensures var r := Exec(s, es).requests[id];
            && i < j < |es| && i < k < |es| && es[i] == Lead(r.stage.leader) && es[j] == Join(id)
            && Flying(Before(s, es, j), GroupOf(r), r.stage.leader)
            && Settles(Before(s, es, k), es[k], r.stage.leader)
            && var now := Before(s, es, k); Agrees(now.Table(), r.code, now.Clock(), r.stage.copy)
  {
    var t := Exec(s, es);
    var r := t.requests[id];
    StartIsInv(s);
    RunReaches(s, es, |es|);
    InvHolds(s, es, |es|);
    assert SharesOk(t, r);
    var leader := r.stage.leader;
    j := FollowerJoined(s, es, |es|, id, leader);
    i := FlightWasLed(s, es, j, GroupOf(r), leader);
    k := AnswerWasSettled(s, es, |es|, leader);
    LeaderSettledInFlight(s, es, i, k, leader);
    InvHolds(s, es, k);
    SettledAnswerAgrees(Before(s, es, k), es[k], leader);
  }

  /** An active link of this code has been committed since. */
  ghost predicate NewLink(b: State, c: State, code: string) {
    exists r :: r in c.Table() && r.code == code && r.IsActive(c.Clock()) && r.id !in b.bloom.adders
  }

  /** An answer that agreed with the table goes on to agree with it exactly until its item
      expires or, if it was none, while no link of the code has been committed since.  A shared
      answer is as old as its leader's, so this tells when it is true at the moment of the Join. */
  lemma AnswerStaysTrueExactlyWhen(s: State, es: seq<Event>, k: nat, m: nat, code: string, answer: Lookup)
    requires Inv(s) && Runs(s, es) && k <= m <= |es|
    requires Agrees(Before(s, es, k).Table(), code, Before(s, es, k).Clock(), answer)
    ensures Agrees(Before(s, es, m).Table(), code, Before(s, es, m).Clock(), answer) <==>
              if answer.Found? then !answer.item.IsExpired(Before(s, es, m).Clock())
              else !NewLink(Before(s, es, k), Before(s, es, m), code)
  {
    InvHolds(s, es, k);
    InvHolds(s, es, m);
    ForwardBetween(s, es, k, m);
    var b, c := Before(s, es, k), Before(s, es, m);
    TableIsOk(b.bloom);
    TableIsOk(c.bloom);
    if answer.Found? {
      FoundLater(b, c, code, answer.item);
    } else {
      MissingLater(b, c, code);
    }
  }

  lemma FoundLater(b: State, c: State, code: string, item: ShortLink)
    requires TableOk(b.Table()) && TableOk(c.Table()) && Forward(b.bloom, c.bloom)
    requires DirectLookup(b.Table(), code, b.Clock()) == Found(item)
    ensures DirectLookup(c.Table(), code, c.Clock()) == Found(item) <==> !item.IsExpired(c.Clock())
  {
    FoundMeansActive(b.Table(), code, b.Clock(), item);
    FoundMeansActive(c.Table(), code, c.Clock(), item);
  }

  lemma MissingLater(b: State, c: State, code: string)
    requires TableOk(b.Table()) && TableOk(c.Table()) && Forward(b.bloom, c.bloom)
    requires !DirectLookup(b.Table(), code, b.Clock()).Found?
    ensures DirectLookup(c.Table(), code, c.Clock()).Found? <==> NewLink(b, c, code)
  {
    FoundExactlyWhen(b.Table(), code, b.Clock());
    FoundExactlyWhen(c.Table(), code, c.Clock());
    if code in ActiveCodes(c.Table(), c.Clock()) {
      var r :| r in c.Table() && r.code == code && r.IsActive(c.Clock());
      assert r in b.Table() ==> r.IsActive(b.Clock());
    }
  }

  // ------------------------------------------------------------- dead links

  lemma DeadLinkNotServed(s: State, e: Event, id: nat, r: ShortLink)
    requires Inv(s) && Coherent(s, r) && r.IsExpired(s.Clock())
    requires Settles(s, e, id) && Step(s, e).requests[id].code == r.code
    ensures !Step(s, e).requests[id].stage.result.Found?
  {
    SettlesItself(s, e, id);
    if e.CheckItem? {
      assert RequestOk(s, s.requests[id]);
      SameCodeSameRow(s.bloom, s.requests[id].stage.item.id, r.id);
    }
  }

  /** Once a link has expired, in whatever caches it still is and whatever writes of it are
      under way: no load of its code yields an item again, and a request that was not answered
      then is given one if and only if it shares a load that had been answered before. */
  lemma DeadLinksStayDead(s: State, es: seq<Event>, id: nat, r: ShortLink)
    requires Inv(s) && Coherent(s, r) && r.IsExpired(s.Clock()) && Runs(s, es)
    requires !IsAnswered(s, id) && !IsShared(s, id)
    requires var t := Exec(s, es); id in t.requests && t.requests[id].Resolve? && t.requests[id].code == r.code
    ensures var stage := Exec(s, es).requests[id].stage;
            && (stage.Answered? ==> !stage.result.Found?)
            && (stage.Shared? ==>
                 (stage.copy.Found? <==> IsAnswered(s, stage.leader) && s.requests[stage.leader].stage.result.Found?))
  {
    var t := Exec(s, es);
    RunReaches(s, es, |es|);
    InvHolds(s, es, |es|);
    var stage := t.requests[id].stage;
    if stage.Answered? {
      LaterAnswersAreNone(s, es, id, r);
    } else if stage.Shared? {
      assert SharesOk(t, t.requests[id]);
      if IsAnswered(s, stage.leader) {
        BecomesBetween(s, es, 0, |es|, stage.leader);
      } else {
        LaterAnswersAreNone(s, es, stage.leader, r);
      }
    }
  }

  lemma LaterAnswersAreNone(s: State, es: seq<Event>, id: nat, r: ShortLink)
    requires Inv(s) && Coherent(s, r) && r.IsExpired(s.Clock()) && Runs(s, es)
    requires !IsAnswered(s, id) && IsAnswered(Exec(s, es), id) && Exec(s, es).requests[id].code == r.code
    ensures !Exec(s, es).requests[id].stage.result.Found?
  {
    RunReaches(s, es, |es|);
    var k := AnswerWasSettled(s, es, |es|, id);
    InvHolds(s, es, k);
    ForwardHolds(s, es, k);
    DeadLinkNotServed(Before(s, es, k), es[k], id, r);
  }

  // ------------------------------------------------------- runs that go wrong

  lemma {:induction false} Split(s: State, es: seq<Event>, fs: seq<Event>)
    ensures Runs(s, es + fs) <==> Runs(s, es) && Runs(Exec(s, es), fs)
    ensures Runs(s, es + fs) ==> Exec(s, es + fs) == Exec(Exec(s, es), fs)
    decreases |es|
  {
    if es == [] {
      assert es + fs == fs;
    } else {
      assert (es + fs)[1..] == es[1..] + fs;
      if Enabled(s, es[0]) {
        Split(Step(s, es[0]), es[1..], fs);
      }
    }
  }

  lemma Append(s: State, es: seq<Event>, e: Event)
    requires Runs(s, es) && Enabled(Exec(s, es), e)
    ensures Runs(s, es + [e]) && Exec(s, es + [e]) == Step(Exec(s, es), e)
  {
    assert [e][1..] == [] && Exec(Step(Exec(s, es), e), []) == Step(Exec(s, es), e);
    Split(s, es, [e]);
  }

  /** The same where the state reached so far is known. */
  lemma Then(s: State, es: seq<Event>, t: State, e: Event)
    requires Runs(s, es) && Exec(s, es) == t && Enabled(t, e)
    ensures Runs(s, es + [e]) && Exec(s, es + [e]) == Step(t, e)
  {
    Append(s, es, e);
  }

  /** A step of a Resolve, where its request before and after are known. */
  lemma ThenResolves(s: State, es: seq<Event>, t: State, e: Event, r: Request)
    requires Runs(s, es) && Exec(s, es) == t && OfResolve(e) && ResolveEnabled(t, e) && Resolved(t, e) == r
    ensures Runs(s, es + [e]) && Exec(s, es + [e]) == t.(requests := t.requests[e.id := r])
  {
    Append(s, es, e);
  }

  lemma ActiveIsFound(s: State, r: ShortLink)
    requires Inv(s) && r in s.Table() && r.IsActive(s.Clock())
    ensures IDFromShortCode(r.code).Some? && !Agrees(s.Table(), r.code, s.Clock(), NotFound)
  {
    IssuedCodeIsValid(r.id);
    TableIsOk(s.bloom);
    FoundMeansActive(s.Table(), r.code, s.Clock(), r);
  }

  lemma Denied(s: State, id: nat, p: nat, code: string) returns (es: seq<Event>)
    requires IDFromShortCode(code).Some? && code !in s.Filter() && id !in s.requests && p != REDIS
    ensures Runs(s, es) && Exec(s, es) == s.(requests := s.requests[id := Resolve(p, code, Answered(NotFound), [])])
  {
    var asking := Resolve(p, code, AskFilter, []);
    es := [];
    ThenResolves(s, es, s, StartResolve(id, p, code), asking);
    es := es + [StartResolve(id, p, code)];
    ThenResolves(s, es, s.(requests := s.requests[id := asking]), FilterSaysNo(id), asking.(stage := Answered(NotFound)));
    es := es + [FilterSaysNo(id)];
  }

  /** Whenever the code of an active link is not in the filter, a Resolve that runs all of its
      course then and there answers that there is no such link. */
  lemma MissedWhenAbsent(s: State, id: nat, p: nat, r: ShortLink) returns (es: seq<Event>)
    requires Inv(s) && r in s.Table() && r.IsActive(s.Clock()) && r.code !in s.Filter()
    requires id !in s.requests && p != REDIS
    ensures Runs(s, es) && Exec(s, es) == s.(requests := s.requests[id := Resolve(p, r.code, Answered(NotFound), [])])
    ensures !Agrees(s.Table(), r.code, s.Clock(), NotFound)
  {
    ActiveIsFound(s, r);
    es := Denied(s, id, p, r.code);
  }

  /** Every protocol run in which no row is deleted is carried by a run of the read path, with
      one Create for each row. */
  lemma {:induction false} Carrier(s: State, bs: seq<Bloom.Event>, next: nat) returns (es: seq<Event>, last: nat)
    requires Bloom.Runs(s.bloom, bs) && forall b :: b in bs ==> !b.Purge?
    requires forall id :: id in s.requests ==> id < next
    ensures Runs(s, es) && Exec(s, es).bloom == Bloom.Exec(s.bloom, bs)
    ensures forall id :: id in Exec(s, es).requests ==> id < last
    decreases |bs|
  {
    es, last := [], next;
    if bs != [] {
      assert bs[0] in bs;
      var e := if bs[0].Commit? then Commit(next, bs[0].row) else FilterStep(bs[0]);
      var s' := Step(s, e);
      assert s'.bloom == Bloom.Step(s.bloom, bs[0]);
      es, last := Carrier(s', bs[1..], next + 1);
      es := [e] + es;
    }
  }

  /** A protocol run that leaves an active link out of the filter, carried on to a wrong
      answer. */
  lemma MissedAfter(b: Bloom.State, bs: seq<Bloom.Event>, r: ShortLink) returns (s: State, es: seq<Event>, id: nat)
    requires Bloom.Init(b) && Bloom.Runs(b, bs) && forall e :: e in bs ==> !e.Purge?
    requires var c := Bloom.Exec(b, bs);
             r in c.table && r.IsActive(c.clock) && r.code !in c.redis.Filter(Bloom.MAIN)
    ensures Start(s) && Bloom.Main(s.bloom) && Runs(s, es) && Exec(s, es).bloom == Bloom.Exec(b, bs)
    ensures var t := Exec(s, es);
            IsAnswered(t, id) && t.requests[id].code == r.code && t.requests[id].stage.result == NotFound
  {
    s := State(b, map[], map[], map[], [], 0);
    StartIsInv(s);
    es, id := Carrier(s, bs, 0);
    InvHolds(s, es, |es|);
    RunReaches(s, es, |es|);
    var fs := MissedWhenAbsent(Exec(s, es), id, 1, r);
    Split(s, es, fs);
    es := es + fs;
  }

  /** A run that answers wrongly although the Add of the link returned success. */
  lemma AddedLinkCanBeMissed() returns (s: State, es: seq<Event>, id: nat, r: ShortLink)
    ensures Start(s) && Bloom.Main(s.bloom) && Runs(s, es)
    ensures var t := Exec(s, es);
            && r in t.Table() && r.IsActive(t.Clock())
            && r.id in t.bloom.adders && t.bloom.adders[r.id].phase.Added?
            && IsAnswered(t, id) && t.requests[id].code == r.code && t.requests[id].stage.result == NotFound
  {
    var b, bs, row := Bloom.AddedCodeCanBeLost();
    r := row;
    s, es, id := MissedAfter(b, bs, r);
  }

  lemma UnaddedRun(b: Bloom.State, r: ShortLink, fails: bool) returns (bs: seq<Bloom.Event>)
    requires b == Bloom.State(0, {}, Redis(None, map[]), map[], map[])
    requires r.id != 0 && r.code == NewShortCode(r.id)
    ensures Bloom.Runs(b, bs) && forall e :: e in bs ==> !e.Purge?
    ensures var phase := if fails then Bloom.AddFailed else Bloom.Committed;
            Bloom.Exec(b, bs) == b.(table := {r}, adders := map[r.id := Bloom.Adder(r, phase, false)])
  {
    bs := [];
    Bloom.Append(b, bs, Bloom.Commit(r));
    bs := bs + [Bloom.Commit(r)];
    if fails {
      Bloom.Append(b, bs, Bloom.AddError(r.id));
      bs := bs + [Bloom.AddError(r.id)];
    }
  }

  /** Runs that answer wrongly for a link just committed: one while its Add is still to come,
      one after its Add has failed. */
  lemma UnaddedLinkCanBeMissed(fails: bool) returns (s: State, es: seq<Event>, id: nat, r: ShortLink)
    ensures Start(s) && Bloom.Main(s.bloom) && Runs(s, es)
    ensures var t := Exec(s, es);
            && r in t.Table() && r.IsActive(t.Clock())
            && r.id in t.bloom.adders && t.bloom.adders[r.id].phase == (if fails then Bloom.AddFailed else Bloom.Committed)
            && IsAnswered(t, id) && t.requests[id].code == r.code && t.requests[id].stage.result == NotFound
  {
    r := ShortLink(1, NewShortCode(1), "https://example.com", "", None, STATUS_ACTIVE, 0, 0);
    var b := Bloom.State(0, {}, Redis(None, map[]), map[], map[]);
    var bs := UnaddedRun(b, r, fails);
    s, es, id := MissedAfter(b, bs, r);
  }

  // -------------------------------------------------- a joiner's dead link

  /** A request that has read the active row of a link with an expiry, leading its flight. */
  ghost predicate AboutToServe(s: State, leader: nat, item: ShortLink) {
    && leader in s.requests && s.requests[leader].Resolve? && s.requests[leader].p != REDIS
    && s.requests[leader] == Resolve(s.requests[leader].p, item.code, GotRow(item), [])
    && Flying(s, GroupOf(s.requests[leader]), leader)
    && item.IsActive(s.Clock()) && item.expireAt.Some? && IDFromShortCode(item.code).Some?
  }

  function ReadTTLs(p: nat, item: ShortLink): seq<Task> {
    [ReadTTL(p, item), ReadTTL(REDIS, item)]
  }

  /** The leader is answered, and the item expires before its cache writes. */
  lemma ServesThenExpires(s: State, leader: nat, item: ShortLink) returns (es: seq<Event>)
    requires AboutToServe(s, leader, item)
    ensures Runs(s, es)
    ensures var p := s.requests[leader].p;
            Exec(s, es) == s.(bloom := s.bloom.(clock := item.expireAt.value),
                              requests := s.requests[leader := Resolve(p, item.code, Answered(Found(item)), ReadTTLs(p, item))])
  {
    es := [];
    Append(s, es, CheckItem(leader));
    es := es + [CheckItem(leader)];
    Append(s, es, FilterStep(Bloom.Tick(item.expireAt.value)));
    es := es + [FilterStep(Bloom.Tick(item.expireAt.value))];
  }

  /** The leader gives up its cache writes, the item having expired. */
  lemma GivesUp(s: State, leader: nat, p: nat, item: ShortLink) returns (es: seq<Event>)
    requires item.IsExpired(s.Clock()) && leader in s.requests
    requires s.requests[leader] == Resolve(p, item.code, Answered(Found(item)), ReadTTLs(p, item))
    ensures Runs(s, es) && Exec(s, es) == s.(requests := s.requests[leader := Resolve(p, item.code, Answered(Found(item)), [])])
  {
    var t := s.(requests := s.requests[leader := Resolve(p, item.code, Answered(Found(item)), [ReadTTL(REDIS, item)])]);
    es := [];
    Then(s, es, s, RunTask(leader, true));
    es := es + [RunTask(leader, true)];
    Then(s, es, t, RunTask(leader, true));
    es := es + [RunTask(leader, true)];
    var done := Resolve(p, item.code, Answered(Found(item)), []);
    assert Exec(s, es) == t.(requests := t.requests[leader := done]);
    assert t.requests[leader := done] == s.requests[leader := done];
  }

  /** It returns to all. */
  lemma Returns(s: State, leader: nat, id: nat, p: nat, code: string, result: Lookup) returns (es: seq<Event>)
    requires id != leader && Flying(s, (p, code), leader)
    requires leader in s.requests && s.requests[leader] == Resolve(p, code, Answered(result), [])
    requires id in s.requests && s.requests[id] == Resolve(p, code, Waiting(leader), [])
    ensures Runs(s, es) && id in Exec(s, es).requests
    ensures Exec(s, es).requests[id] == Resolve(p, code, Shared(leader, result), [])
  {
    es := [];
    Then(s, es, s, Return(leader));
    es := es + [Return(leader)];
    Then(s, es, s.(flights := s.flights - {(p, code)}), Share(id));
    es := es + [Share(id)];
  }

  lemma Stores(s: State, id: nat, r: ShortLink) returns (es: seq<Event>)
    requires id !in s.requests && Bloom.AddEnabled(s.bloom, Bloom.Commit(r))
    ensures Runs(s, es)
    ensures Exec(s, es) == s.(bloom := Bloom.AddStep(s.bloom, Bloom.Commit(r)), requests := s.requests[id := Create(r, true, [])])
  {
    es := [];
    Append(s, es, Commit(id, r));
    es := es + [Commit(id, r)];
  }

  /** A request comes as far as the group of loads. */
  lemma Enters(s: State, id: nat, p: nat, code: string) returns (es: seq<Event>)
    requires p != REDIS && id !in s.requests && IDFromShortCode(code).Some?
    ensures Runs(s, es) && Exec(s, es) == s.(requests := s.requests[id := Resolve(p, code, AtGroup, [])])
  {
    var q := Resolve(p, code, AskFilter, []);
    es := [];
    ThenResolves(s, es, s, StartResolve(id, p, code), q);
    es := es + [StartResolve(id, p, code)];
    var t := s.(requests := s.requests[id := q]);
    ThenResolves(s, es, t, FilterSaysMaybe(id), q.(stage := ReadLocal));
    es := es + [FilterSaysMaybe(id)];
    t := s.(requests := s.requests[id := q.(stage := ReadLocal)]);
    assert Exec(s, es) == t;
    ThenResolves(s, es, t, CacheMiss(id), q.(stage := AtGroup));
    es := es + [CacheMiss(id)];
  }

  /** It leads a flight of its own and reads the row. */
  lemma Leads(s: State, id: nat, p: nat, r: ShortLink) returns (es: seq<Event>)
    requires id in s.requests && s.requests[id] == Resolve(p, r.code, AtGroup, []) && r in s.Table() && (p, r.code) !in s.flights
    ensures Runs(s, es)
    ensures Exec(s, es) == s.(flights := s.flights[(p, r.code) := id],
                              requests := s.requests[id := Resolve(p, r.code, GotRow(r), [])])
  {
    var flights, q := s.flights[(p, r.code) := id], Resolve(p, r.code, ReadRemote, []);
    es := [];
    Then(s, es, s, Lead(id));
    es := es + [Lead(id)];
    var t := s.(flights := flights, requests := s.requests[id := q]);
    ThenResolves(s, es, t, CacheMiss(id), q.(stage := ReadRow));
    es := es + [CacheMiss(id)];
    t := t.(requests := t.requests[id := q.(stage := ReadRow)]);
    ThenResolves(s, es, t, RowRead(id, r), q.(stage := GotRow(r)));
    es := es + [RowRead(id, r)];
    assert t.requests[id := q.(stage := GotRow(r))] == s.requests[id := q.(stage := GotRow(r))];
  }

  /** From an empty system to a dead item still on its way: the link is stored, a request reads
      it, the link expires. */
  lemma DeadInFlight(s: State, r: ShortLink) returns (es: seq<Event>)
    requires s == State(Bloom.State(0, {}, Redis(None, map[]), map[], map[]), map[], map[], map[], [], 0)
    requires r.id != 0 && r.code == NewShortCode(r.id) && r.IsActive(0) && r.expireAt.Some?
    ensures Runs(s, es)
    ensures var t := Exec(s, es);
            && r.IsExpired(t.Clock()) && Flying(t, (1, r.code), 1) && 2 !in t.requests
            && 1 in t.requests && t.requests[1] == Resolve(1, r.code, Answered(Found(r)), ReadTTLs(1, r))
  {
    IssuedCodeIsValid(r.id);
    es := Stores(s, 0, r);
    var fs := Enters(Exec(s, es), 1, 1, r.code);
    Split(s, es, fs);
    es := es + fs;
    fs := Leads(Exec(s, es), 1, 1, r);
    Split(s, es, fs);
    es := es + fs;
    fs := ServesThenExpires(Exec(s, es), 1, r);
    Split(s, es, fs);
    es := es + fs;
  }

  lemma JoinsAndReturns(s: State, r: ShortLink) returns (es: seq<Event>)
    requires r.IsExpired(s.Clock()) && Flying(s, (1, r.code), 1) && 2 !in s.requests && IDFromShortCode(r.code).Some?
    requires 1 in s.requests && s.requests[1] == Resolve(1, r.code, Answered(Found(r)), ReadTTLs(1, r))
    ensures es != [] && Runs(s, es) && IsShared(Exec(s, es), 2) && Exec(s, es).requests[2].stage.copy == Found(r)
  {
    es := Enters(s, 2, 1, r.code);
    var t := Exec(s, es);
    Append(s, es, Join(2));
    es := es + [Join(2)];
    var fs := GivesUp(Exec(s, es), 1, 1, r);
    Split(s, es, fs);
    es := es + fs;
    fs := Returns(Exec(s, es), 1, 2, 1, r.code, Found(r));
    Split(s, es, fs);
    es := es + fs;
  }

  /** A run in which a request that starts after a link has expired is given the dead item, as
      the copy of an answer settled before. */
  lemma JoinerGetsDeadLink() returns (s: State, es: seq<Event>, k: nat, id: nat, r: ShortLink)
    ensures Start(s) && Bloom.Main(s.bloom) && Runs(s, es) && k < |es|
    ensures r.IsExpired(Before(s, es, k).Clock()) && id !in Before(s, es, k).requests
    ensures IsShared(Exec(s, es), id) && Exec(s, es).requests[id].stage.copy == Found(r)
  {
    r := ShortLink(1, NewShortCode(1), "https://example.com", "", Some(5), STATUS_ACTIVE, 0, 0);
    s := State(Bloom.State(0, {}, Redis(None, map[]), map[], map[]), map[], map[], map[], [], 0);
    id := 2;
    es := DeadInFlight(s, r);
    k := |es|;
    es := JoinsDead(s, es, r);
  }

  lemma JoinsDead(s: State, before: seq<Event>, r: ShortLink) returns (es: seq<Event>)
    requires Runs(s, before) && r.id != 0 && r.code == NewShortCode(r.id)
    requires var t := Exec(s, before);
             && r.IsExpired(t.Clock()) && Flying(t, (1, r.code), 1) && 2 !in t.requests
             && 1 in t.requests && t.requests[1] == Resolve(1, r.code, Answered(Found(r)), ReadTTLs(1, r))
    ensures Runs(s, es) && |before| < |es| && Before(s, es, |before|) == Exec(s, before)
    ensures IsShared(Exec(s, es), 2) && Exec(s, es).requests[2].stage.copy == Found(r)
  {
    IssuedCodeIsValid(r.id);
    var fs := JoinsAndReturns(Exec(s, before), r);
    Split(s, before, fs);
    BeforePrefix(s, before, fs, |before|);
    RunReaches(s, before, |before|);
    es := before + fs;
  }

  lemma {:induction false} BeforePrefix(s: State, es: seq<Event>, fs: seq<Event>, k: nat)
    requires Runs(s, es) && Runs(s, es + fs) && k <= |es|
    ensures Before(s, es + fs, k) == Before(s, es, k)
    decreases k
  {
    if k > 0 {
      assert (es + fs)[1..] == es[1..] + fs;
      BeforePrefix(Step(s, es[0]), es[1..], fs, k - 1);
    }
  }
}
