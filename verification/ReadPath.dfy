/** The tiered read path under concurrency: Resolve through the filter, a local cache, Redis
    and the table, while links are created, the filter is added to and rebuilt, rows expire,
    and two cleaners delete them (internal/app/linkapp/service.go, lazy_cleaner.go,
    internal/app/cleanupapp/service.go, internal/infrastructure/filter/bloom.go).

    The state contains that of BloomProtocol: its table, its clock and its filters are the
    ones used here, and all its Adds and rebuilds run alongside.  Each cache access,
    statement, filter command and clock reading is one atomic event; any number of processes
    and requests interleave.  Loads of one code are shared within a process.  Caches may lose
    entries at any time, and a cache command may fail, which the code treats as a miss or
    ignores.  One monotone clock.
 */
module ReadPath {
  import opened Options
  import opened Base62
  import opened Links
  import opened Tables
  import Bloom = BloomProtocol

  const REDIS: nat := 0 // cache 0 is shared; cache p > 0 is the local cache of process p

  type CacheKey = (nat, string)

  /** What a request still has to do before it goes on or returns. */
  datatype Task =
    | ReadTTL(cache: nat, item: ShortLink) // cacheTTLFor: give up when the item has expired
    | Put(cache: nat, item: ShortLink)
    | Drop(cache: nat, code: string)
    | Enqueue(code: string, before: Time)

  datatype Stage =
    | AskFilter
    | ReadLocal
    | GotLocal(item: ShortLink)
    | AtGroup // about to enter the group of loads
    | Waiting(leader: nat) // for another request's load
    | ReadRemote
    | GotRemote(item: ShortLink)
    | ReadRow
    | GotRow(item: ShortLink)
    | Answered(result: Lookup)
    | Shared(leader: nat, copy: Lookup) // answered with the leader's result
    | Broken // a failed statement, the leader's included

  datatype Request =
    | Resolve(p: nat, code: string, stage: Stage, todo: seq<Task>)
    | Create(row: ShortLink, adding: bool, todo: seq<Task>) // `adding`: its filter.Add has not returned
    | Cleanup(before: Time, page: set<ShortLink>)

  datatype State = State(
    bloom: Bloom.State,
    caches: map<CacheKey, ShortLink>,
    flights: map<CacheKey, nat>, // loads under way, by process and code, and who leads them
    requests: map<nat, Request>,
    lazyQueue: seq<(string, Time)>,
    lazyCapacity: nat)
  {
    function Clock(): Time {
      bloom.clock
    }

    function Table(): set<ShortLink> {
      bloom.table
    }

    /** The codes BF.EXISTS is sure to find. */
    function Filter(): set<string> {
      bloom.redis.Filter(Bloom.MAIN)
    }
  }

  datatype Event =
    | StartResolve(id: nat, p: nat, code: string)
    | FilterSaysNo(id: nat)
    | FilterSaysMaybe(id: nat) // truly or falsely, or it fails, or there is none
    | CacheMiss(id: nat) // the entry is missing, or the command failed
    | CacheHit(id: nat)
    | CheckItem(id: nat)
    | Lead(id: nat)
    | Join(id: nat)
    | Return(id: nat)
    | Share(id: nat)
    | RowMissing(id: nat)
    | RowRead(id: nat, row: ShortLink)
    | StatementFails(id: nat)
    | RunTask(id: nat, ok: bool)
    | Commit(id: nat, row: ShortLink)
    | AddReturns(id: nat)
    | FilterStep(e: Bloom.Event) // of an Add or a rebuild, or the clock
    | StartCleanup(id: nat)
    | SelectPage(id: nat, page: set<ShortLink>)
    | InvalidatePage(id: nat)
    | DeletePage(id: nat)
    | LazyDelete(ok: bool)
    | Evict(key: CacheKey)

  // ------------------------------------------------------------------- steps

  predicate At(s: State, id: nat, stage: Stage) {
    Ready(s, id) && s.requests[id].stage == stage
  }

  /** A Resolve with no task outstanding. */
  predicate Ready(s: State, id: nat) {
    id in s.requests && s.requests[id].Resolve? && s.requests[id].todo == []
  }

  predicate HasTask(s: State, id: nat) {
    id in s.requests && !s.requests[id].Cleanup? && s.requests[id].todo != []
  }

  /** The cache the request reads next. */
  function NextKey(r: Request): CacheKey
    requires r.Resolve?
  {
    (if r.stage == ReadLocal then r.p else REDIS, r.code)
  }

  /** The load the request takes part in. */
  function GroupOf(r: Request): CacheKey
    requires r.Resolve?
  {
    (r.p, r.code)
  }

  predicate Flying(s: State, key: CacheKey, leader: nat) {
    key in s.flights && s.flights[key] == leader
  }

  /** The load has returned, to all who wait for it. */
  predicate HasReturned(s: State, key: CacheKey, leader: nat) {
    && !Flying(s, key, leader) && leader in s.requests && s.requests[leader].Resolve?
    && (s.requests[leader].stage.Answered? || s.requests[leader].stage.Broken?)
  }

  /** The phase of the Add that a Create waits for. */
  predicate AddIsOver(s: State, id: nat) {
    && id in s.requests && s.requests[id].Create? && s.requests[id].adding
    && var link := s.requests[id].row.id;
       link in s.bloom.adders && (s.bloom.adders[link].phase.Added? || s.bloom.adders[link].phase.AddFailed?)
  }

  predicate OfResolve(e: Event) {
    e.StartResolve? || e.FilterSaysNo? || e.FilterSaysMaybe? || e.CacheMiss? || e.CacheHit? || e.CheckItem? || e.RowMissing? ||
    e.RowRead? || e.StatementFails?
  }

  predicate OfFlight(e: Event) {
    e.Lead? || e.Join? || e.Return? || e.Share?
  }

  predicate OfCreate(e: Event) {
    e.Commit? || e.AddReturns?
  }

  predicate OfCleanup(e: Event) {
    e.StartCleanup? || e.SelectPage? || e.InvalidatePage? || e.DeletePage?
  }

  ghost predicate ResolveEnabled(s: State, e: Event)
    requires OfResolve(e)
  {
    match e
    case StartResolve(id, p, code) => id !in s.requests && p != REDIS
    case FilterSaysNo(id) => At(s, id, AskFilter) && s.requests[id].code !in s.Filter()
    case FilterSaysMaybe(id) => At(s, id, AskFilter)
    case CacheMiss(id) => At(s, id, ReadLocal) || At(s, id, ReadRemote)
    case CacheHit(id) => (At(s, id, ReadLocal) || At(s, id, ReadRemote)) && NextKey(s.requests[id]) in s.caches
    case CheckItem(id) => Ready(s, id) && HasItem(s.requests[id].stage)
    case RowMissing(id) => At(s, id, ReadRow) && forall r :: r in s.Table() ==> r.code != s.requests[id].code
    case RowRead(id, row) => At(s, id, ReadRow) && row in s.Table() && row.code == s.requests[id].code
    case StatementFails(id) => At(s, id, ReadRow)
  }

  predicate FlightEnabled(s: State, e: Event)
    requires OfFlight(e)
  {
    match e
    case Lead(id) => At(s, id, AtGroup) && GroupOf(s.requests[id]) !in s.flights
    case Join(id) => At(s, id, AtGroup) && GroupOf(s.requests[id]) in s.flights
    case Return(id) =>
      && Ready(s, id) && (s.requests[id].stage.Answered? || s.requests[id].stage.Broken?)
      && Flying(s, GroupOf(s.requests[id]), id)
    case Share(id) =>
      Ready(s, id) && s.requests[id].stage.Waiting? && HasReturned(s, GroupOf(s.requests[id]), s.requests[id].stage.leader)
  }

  predicate CreateEnabled(s: State, e: Event)
    requires OfCreate(e)
  {
    match e
    case Commit(id, row) => id !in s.requests && Bloom.AddEnabled(s.bloom, Bloom.Commit(row))
    case AddReturns(id) => AddIsOver(s, id)
  }

  ghost predicate CleanupEnabled(s: State, e: Event)
    requires OfCleanup(e)
  {
    match e
    case StartCleanup(id) => id !in s.requests
    case SelectPage(id, page) =>
      && id in s.requests && s.requests[id].Cleanup?
      && forall r :: r in page ==> r in s.Table() && r.IsExpired(s.requests[id].before)
    case InvalidatePage(id) => id in s.requests && s.requests[id].Cleanup?
    case DeletePage(id) => id in s.requests && s.requests[id].Cleanup?
  }

  ghost predicate Enabled(s: State, e: Event) {
    if OfResolve(e) then ResolveEnabled(s, e)
    else if OfFlight(e) then FlightEnabled(s, e)
    else if OfCreate(e) then CreateEnabled(s, e)
    else if OfCleanup(e) then CleanupEnabled(s, e)
    else if e.RunTask? then HasTask(s, e.id)
    else if e.FilterStep? then !e.e.Commit? && !e.e.Purge? && Bloom.Enabled(s.bloom, e.e)
    else e.LazyDelete? ==> s.lazyQueue != []
  }

  predicate HasItem(stage: Stage) {
    stage.GotLocal? || stage.GotRemote? || stage.GotRow?
  }

  /** The clock is read and the item in hand is served, dropped or given up. */
  function Checked(r: Request, now: Time): Request
    requires r.Resolve? && HasItem(r.stage)
  {
    match r.stage
    case GotLocal(item) =>
      if item.IsActive(now) then r.(stage := Answered(Found(item)))
      else r.(stage := AtGroup, todo := Forget(r.p, item.code))
    case GotRemote(item) =>
      if item.IsActive(now) then r.(stage := Answered(Found(item)), todo := [ReadTTL(r.p, item)])
      else r.(stage := ReadRow, todo := Forget(r.p, item.code))
    case GotRow(item) =>
      if item.IsExpired(now) then
        r.(stage := Answered(Expired), todo := Forget(r.p, r.code) + [Enqueue(r.code, now)])
      else if item.status != STATUS_ACTIVE then r.(stage := Answered(NotFound))
      else r.(stage := Answered(Found(item)), todo := [ReadTTL(r.p, item), ReadTTL(REDIS, item)])
  }

  function Forget(p: nat, code: string): seq<Task> {
    if code == "" then [] else [Drop(p, code), Drop(REDIS, code)]
  }

  /** A cache command with `ok` false has failed and is ignored. */
  function Perform(s: State, t: Task, ok: bool): State {
    match t
    case ReadTTL(_, _) => s
    case Put(cache, item) => if ok then s.(caches := s.caches[(cache, item.code) := item]) else s
    case Drop(cache, code) => if ok then s.(caches := s.caches - {(cache, code)}) else s
    case Enqueue(code, before) =>
      if |s.lazyQueue| < s.lazyCapacity && code != "" then s.(lazyQueue := s.lazyQueue + [(code, before)]) else s
  }

  function Following(t: Task, todo: seq<Task>, clock: Time): seq<Task> {
    if t.ReadTTL? && !t.item.IsExpired(clock) then [Put(t.cache, t.item)] + todo else todo
  }

  function Run(s: State, id: nat, ok: bool): State
    requires HasTask(s, id)
  {
    var r := s.requests[id];
    var todo := Following(r.todo[0], r.todo[1..], s.Clock());
    Perform(s, r.todo[0], ok).(requests := s.requests[id := r.(todo := todo)])
  }

  function Remove(s: State, rows: set<ShortLink>): State {
    s.(bloom := s.bloom.(table := s.bloom.table - rows))
  }

  /** The request after an event of its own. */
  ghost function Resolved(s: State, e: Event): Request
    requires OfResolve(e) && ResolveEnabled(s, e)
  {
    match e
    case StartResolve(id, p, code) => Resolve(p, code, if IDFromShortCode(code).None? then Answered(InvalidCode) else AskFilter, [])
    case FilterSaysNo(id) => s.requests[id].(stage := Answered(NotFound))
    case FilterSaysMaybe(id) => s.requests[id].(stage := ReadLocal)
    case CacheMiss(id) => s.requests[id].(stage := if s.requests[id].stage == ReadLocal then AtGroup else ReadRow)
    case CacheHit(id) =>
      var item := s.caches[NextKey(s.requests[id])];
      s.requests[id].(stage := if s.requests[id].stage == ReadLocal then GotLocal(item) else GotRemote(item))
    case CheckItem(id) => Checked(s.requests[id], s.Clock())
    case RowMissing(id) => s.requests[id].(stage := Answered(NotFound))
    case RowRead(id, row) => s.requests[id].(stage := GotRow(row))
    case StatementFails(id) => s.requests[id].(stage := Broken)
  }

  function FlightStep(s: State, e: Event): State
    requires OfFlight(e) && FlightEnabled(s, e)
  {
    var r := s.requests[e.id];
    match e
    case Lead(id) => s.(flights := s.flights[GroupOf(r) := id], requests := s.requests[id := r.(stage := ReadRemote)])
    case Join(id) => s.(requests := s.requests[id := r.(stage := Waiting(s.flights[GroupOf(r)]))])
    case Return(_) => s.(flights := s.flights - {GroupOf(r)})
    case Share(id) =>
      var stage := s.requests[r.stage.leader].stage;
      s.(requests := s.requests[id := r.(stage := if stage.Answered? then Shared(r.stage.leader, stage.result) else Broken)])
  }

  function CreateStep(s: State, e: Event): State
    requires OfCreate(e) && CreateEnabled(s, e)
  {
    match e
    case Commit(id, row) =>
      s.(bloom := Bloom.AddStep(s.bloom, Bloom.Commit(row)), requests := s.requests[id := Create(row, true, [])])
    case AddReturns(id) =>
      var r := s.requests[id];
      var todo := if s.bloom.adders[r.row.id].phase.Added? then [ReadTTL(REDIS, r.row)] else [];
      s.(requests := s.requests[id := Create(r.row, false, todo)])
  }

  ghost function CleanupStep(s: State, e: Event): State
    requires OfCleanup(e) && CleanupEnabled(s, e)
  {
    match e
    case StartCleanup(id) => s.(requests := s.requests[id := Cleanup(s.Clock(), {})])
    case SelectPage(id, page) => s.(requests := s.requests[id := s.requests[id].(page := page)])
    case InvalidatePage(id) => s.(caches := s.caches - set r | r in s.requests[id].page :: (REDIS, r.code))
    case DeletePage(id) => Remove(s, s.requests[id].page)
  }

  /** The rows a lazy cleaner's statement deletes. */
  function LazyRows(s: State, ok: bool): set<ShortLink>
    requires s.lazyQueue != []
  {
    if ok then set r | r in s.Table() && r.code == s.lazyQueue[0].0 && r.IsExpired(s.lazyQueue[0].1) else {}
  }

  ghost function Step(s: State, e: Event): State
    requires Enabled(s, e)
  {
    if OfResolve(e) then s.(requests := s.requests[e.id := Resolved(s, e)])
    else if OfFlight(e) then FlightStep(s, e)
    else if OfCreate(e) then CreateStep(s, e)
    else if OfCleanup(e) then CleanupStep(s, e)
    else if e.RunTask? then Run(s, e.id, e.ok)
    else if e.FilterStep? then s.(bloom := Bloom.Step(s.bloom, e.e))
    else if e.LazyDelete? then Remove(s, LazyRows(s, e.ok)).(lazyQueue := s.lazyQueue[1..])
    else s.(caches := s.caches - {e.key})
  }

  // --------------------------------------------------------------- coherence

  /** The item is that of a committed row, which is still there or has expired. */
  ghost predicate Coherent(s: State, item: ShortLink) {
    && item.id in s.bloom.adders && s.bloom.adders[item.id].row == item
    && (item in s.Table() || item.IsExpired(s.Clock()))
  }

  ghost predicate TaskOk(s: State, t: Task) {
    match t
    case ReadTTL(_, item) => Coherent(s, item)
    case Put(_, item) => Coherent(s, item)
    case Drop(_, _) => true
    case Enqueue(_, before) => before <= s.Clock()
  }

  ghost predicate RequestOk(s: State, r: Request) {
    match r
    case Resolve(_, code, stage, todo) =>
      && (HasItem(stage) ==> stage.item.code == code && Coherent(s, stage.item))
      && (!stage.Answered? ==> IDFromShortCode(code).Some?)
      && (forall t :: t in todo ==> TaskOk(s, t))
    case Create(row, _, todo) => Coherent(s, row) && forall t :: t in todo ==> TaskOk(s, t)
    case Cleanup(before, page) => before <= s.Clock() && forall r :: r in page ==> r.IsExpired(before)
  }

  ghost predicate CachesOk(s: State) {
    && (forall key :: key in s.caches ==> s.caches[key].code == key.1 && Coherent(s, s.caches[key]))
    && (forall id :: id in s.requests ==> RequestOk(s, s.requests[id]))
    && (forall i :: 0 <= i < |s.lazyQueue| ==> s.lazyQueue[i].1 <= s.Clock())
  }

  /** The request entered the group of loads and found none under way. */
  predicate IsLeader(s: State, id: nat, key: CacheKey) {
    && id in s.requests && s.requests[id].Resolve? && GroupOf(s.requests[id]) == key
    && var stage := s.requests[id].stage;
       stage.ReadRemote? || stage.GotRemote? || stage.ReadRow? || stage.GotRow? || stage.Answered? || stage.Broken?
  }

  /** Who waits, waits for a load of the same code in the same process, and is given what its
      leader was answered. */
  ghost predicate FlightsOk(s: State) {
    && (forall key :: key in s.flights ==> IsLeader(s, s.flights[key], key))
    && (forall id :: id in s.requests ==> SharesOk(s, s.requests[id]))
  }

  ghost predicate SharesOk(s: State, r: Request) {
    r.Resolve? ==>
      && (r.stage.Waiting? ==> IsLeader(s, r.stage.leader, GroupOf(r)))
      && (r.stage.Shared? ==> IsLeader(s, r.stage.leader, GroupOf(r)) && s.requests[r.stage.leader].stage == Answered(r.stage.copy))
  }

  /** Nothing is asked of the main filter here, which may be missing. */
  ghost predicate Inv(s: State) {
    Bloom.Sound(s.bloom) && CachesOk(s) && FlightsOk(s)
  }

  /** Committed rows are never forgotten by the history, they leave the table only once they
      have expired and for good, and the clock never goes back. */
  ghost predicate Forward(b: Bloom.State, c: Bloom.State) {
    && b.clock <= c.clock
    && (forall id :: id in b.adders ==> id in c.adders && c.adders[id].row == b.adders[id].row)
    && (forall r :: r in b.table && r !in c.table ==> r.IsExpired(c.clock))
    && (forall r :: r in c.table && r !in b.table ==> r.id !in b.adders)
  }

  lemma AddGoesForward(b: Bloom.State, e: Bloom.Event)
    requires Bloom.OfAdd(e) && Bloom.AddEnabled(b, e)
    ensures Forward(b, Bloom.AddStep(b, e))
  {
  }

  lemma RebuildGoesForward(b: Bloom.State, e: Bloom.Event)
    requires Bloom.OfRebuild(e) && Bloom.RebuildEnabled(b, e)
    ensures Forward(b, Bloom.RebuildStep(b, e))
  {
  }

  lemma ExitGoesForward(b: Bloom.State, e: Bloom.Event)
    requires Bloom.OfExit(e) && Bloom.ExitEnabled(b, e)
    ensures Forward(b, Bloom.ExitStep(b, e))
  {
  }

  lemma FilterStepsGoForward(b: Bloom.State, e: Bloom.Event)
    requires Bloom.Rows(b) && Bloom.Enabled(b, e)
    ensures Forward(b, Bloom.Step(b, e))
  {
    if Bloom.OfAdd(e) {
      AddGoesForward(b, e);
    } else if Bloom.OfRebuild(e) {
      RebuildGoesForward(b, e);
    } else if Bloom.OfExit(e) {
      ExitGoesForward(b, e);
    }
  }

  /** What an event is to the filter protocol. */
  ghost function ProtocolEvent(s: State, e: Event): Option<Bloom.Event>
    requires Enabled(s, e)
  {
    match e
    case Commit(_, row) => Some(Bloom.Commit(row))
    case FilterStep(b) => Some(b)
    case DeletePage(_) => Some(Bloom.Purge(s.Table() - Step(s, e).Table()))
    case LazyDelete(_) => Some(Bloom.Purge(s.Table() - Step(s, e).Table()))
    case _ => None
  }

  lemma RemovalIsPurge(s: State, rows: set<ShortLink>)
    requires forall r :: r in rows ==> r.IsExpired(s.Clock())
    ensures var b, t := Bloom.Purge(s.Table() - Remove(s, rows).Table()), Remove(s, rows).bloom;
            Bloom.Enabled(s.bloom, b) && Bloom.Step(s.bloom, b) == t
  {
    assert s.Table() - rows == s.Table() - (s.Table() - (s.Table() - rows));
  }

  lemma OthersLeaveProtocol(s: State, e: Event)
    requires Enabled(s, e) && ProtocolEvent(s, e) == None
    ensures Step(s, e).bloom == s.bloom
  {
  }

  /** Every step is a step of the filter protocol, or leaves the protocol's state alone. */
  lemma StepsTheProtocol(s: State, e: Event)
    requires CachesOk(s) && Enabled(s, e)
    ensures match ProtocolEvent(s, e)
            case Some(b) => Bloom.Enabled(s.bloom, b) && Bloom.Step(s.bloom, b) == Step(s, e).bloom
            case None => Step(s, e).bloom == s.bloom
  {
    if ProtocolEvent(s, e) == None {
      OthersLeaveProtocol(s, e);
    } else if e.DeletePage? {
      assert RequestOk(s, s.requests[e.id]);
      RemovalIsPurge(s, s.requests[e.id].page);
    } else if e.LazyDelete? {
      RemovalIsPurge(s, LazyRows(s, e.ok));
    }
  }

  /** No step deletes an unexpired row. */
  lemma OnlyExpiredRowsGo(s: State, e: Event)
    requires Inv(s) && Enabled(s, e)
    ensures Forward(s.bloom, Step(s, e).bloom) && Bloom.Sound(Step(s, e).bloom)
  {
    StepsTheProtocol(s, e);
    var b := ProtocolEvent(s, e);
    if b.Some? {
      FilterStepsGoForward(s.bloom, b.value);
      Bloom.KeepsSound(s.bloom, b.value);
    }
  }

  /** A right main filter stays right, and a rebuild that wins makes it so. */
  lemma KeepsMain(s: State, e: Event)
    requires Inv(s) && Enabled(s, e)
    requires Bloom.Main(s.bloom) || (e.FilterStep? && Bloom.Wins(s.bloom, e.e))
    ensures Bloom.Main(Step(s, e).bloom)
  {
    StepsTheProtocol(s, e);
    if Bloom.Main(s.bloom) {
      if ProtocolEvent(s, e).Some? {
        Bloom.KeepsInv(s.bloom, ProtocolEvent(s, e).value);
      }
    } else {
      Bloom.WinEstablishesInv(s.bloom, e.e);
    }
  }

  lemma RequestCarries(s: State, t: State, r: Request)
    requires RequestOk(s, r) && Forward(s.bloom, t.bloom)
    ensures RequestOk(t, r)
  {
    forall task | TaskOk(s, task)
      ensures TaskOk(t, task)
    {
    }
  }

  ghost predicate Carried(s: State, t: State) {
    && (forall id :: id in s.requests ==> RequestOk(t, s.requests[id]))
    && (forall key :: key in s.caches ==> Coherent(t, s.caches[key]))
    && (forall i :: 0 <= i < |s.lazyQueue| ==> s.lazyQueue[i].1 <= t.Clock())
  }

  lemma Carries(s: State, t: State)
    requires CachesOk(s) && Forward(s.bloom, t.bloom)
    ensures Carried(s, t)
  {
    forall id | id in s.requests
      ensures RequestOk(t, s.requests[id])
    {
      RequestCarries(s, t, s.requests[id]);
    }
  }

  /** A step of a Resolve that takes no item into its hands or its tasks. */
  lemma MovesKeepRequest(s: State, e: Event)
    requires OfResolve(e) && ResolveEnabled(s, e) && !e.CacheHit? && !e.RowRead? && !e.CheckItem?
    ensures Resolved(s, e).Resolve? && Resolved(s, e).todo == [] && !HasItem(Resolved(s, e).stage)
    ensures e.id in s.requests && RequestOk(s, s.requests[e.id]) ==> RequestOk(s, Resolved(s, e))
    ensures e.id !in s.requests ==> RequestOk(s, Resolved(s, e))
  {
  }

  lemma ReadsKeepRequest(s: State, e: Event)
    requires Bloom.Rows(s.bloom) && CachesOk(s) && (e.CacheHit? || e.RowRead?) && ResolveEnabled(s, e)
    ensures RequestOk(s, Resolved(s, e))
  {
    assert RequestOk(s, s.requests[e.id]);
  }

  lemma CheckKeepsRequest(s: State, id: nat)
    requires CachesOk(s) && ResolveEnabled(s, CheckItem(id))
    ensures RequestOk(s, Checked(s.requests[id], s.Clock()))
  {
    assert RequestOk(s, s.requests[id]);
  }

  lemma ResolveKeepsCaches(s: State, e: Event)
    requires Bloom.Rows(s.bloom) && CachesOk(s) && OfResolve(e) && ResolveEnabled(s, e)
    ensures CachesOk(s.(requests := s.requests[e.id := Resolved(s, e)]))
  {
    if e.CheckItem? {
      CheckKeepsRequest(s, e.id);
    } else if e.CacheHit? || e.RowRead? {
      ReadsKeepRequest(s, e);
    } else {
      MovesKeepRequest(s, e);
    }
    OneRequestOk(s, e.id, Resolved(s, e));
  }

  lemma OneRequestOk(s: State, id: nat, r: Request)
    requires CachesOk(s) && RequestOk(s, r)
    ensures CachesOk(s.(requests := s.requests[id := r]))
  {
    var t := s.(requests := s.requests[id := r]);
    Carries(s, t);
    RequestCarries(s, t, r);
  }

  lemma PerformKeepsCaches(s: State, t: Task, ok: bool)
    requires CachesOk(s) && TaskOk(s, t)
    ensures CachesOk(Perform(s, t, ok))
  {
    Carries(s, Perform(s, t, ok));
  }

  lemma FollowingIsOk(s: State, id: nat)
    requires CachesOk(s) && HasTask(s, id)
    ensures var r := s.requests[id];
            TaskOk(s, r.todo[0]) && RequestOk(s, r.(todo := Following(r.todo[0], r.todo[1..], s.Clock())))
  {
    var r := s.requests[id];
    assert RequestOk(s, r) && TaskOk(s, r.todo[0]);
    forall x | x in Following(r.todo[0], r.todo[1..], s.Clock())
      ensures TaskOk(s, x)
    {
      if x !in r.todo[1..] {
        assert x == Put(r.todo[0].cache, r.todo[0].item);
      }
    }
  }

  lemma RunKeepsCaches(s: State, id: nat, ok: bool)
    requires CachesOk(s) && HasTask(s, id)
    ensures CachesOk(Run(s, id, ok))
  {
    var r := s.requests[id];
    FollowingIsOk(s, id);
    PerformKeepsCaches(s, r.todo[0], ok);
    var t, after := Perform(s, r.todo[0], ok), r.(todo := Following(r.todo[0], r.todo[1..], s.Clock()));
    RequestCarries(s, t, after);
    OneRequestOk(t, id, after);
  }

  lemma FlightKeepsCaches(s: State, e: Event)
    requires CachesOk(s) && OfFlight(e) && FlightEnabled(s, e)
    ensures CachesOk(FlightStep(s, e))
  {
    Carries(s, FlightStep(s, e));
    assert RequestOk(FlightStep(s, e), s.requests[e.id]);
  }

  lemma CreateKeepsCaches(s: State, e: Event)
    requires CachesOk(s) && OfCreate(e) && CreateEnabled(s, e) && Forward(s.bloom, CreateStep(s, e).bloom)
    ensures CachesOk(CreateStep(s, e))
  {
    Carries(s, CreateStep(s, e));
    if e.AddReturns? {
      assert RequestOk(CreateStep(s, e), s.requests[e.id]);
    }
  }

  lemma CleanupKeepsCaches(s: State, e: Event)
    requires CachesOk(s) && OfCleanup(e) && CleanupEnabled(s, e) && Forward(s.bloom, CleanupStep(s, e).bloom)
    ensures CachesOk(CleanupStep(s, e))
  {
    Carries(s, CleanupStep(s, e));
  }

  lemma KeepsCaches(s: State, e: Event)
    requires Inv(s) && Enabled(s, e)
    ensures CachesOk(Step(s, e))
  {
    OnlyExpiredRowsGo(s, e);
    if OfResolve(e) {
      ResolveKeepsCaches(s, e);
    } else if OfFlight(e) {
      FlightKeepsCaches(s, e);
    } else if OfCreate(e) {
      CreateKeepsCaches(s, e);
    } else if OfCleanup(e) {
      CleanupKeepsCaches(s, e);
    } else if e.RunTask? {
      RunKeepsCaches(s, e.id, e.ok);
    } else {
      Carries(s, Step(s, e));
    }
  }

  // ----------------------------------------------------------------- requests

  /** The request an event belongs to. */
  function OwnerOf(e: Event): Option<nat> {
    if e.FilterStep? || e.LazyDelete? || e.Evict? then None else Some(e.id)
  }

  lemma OthersUntouched(s: State, e: Event, id: nat)
    requires Enabled(s, e) && id in s.requests && OwnerOf(e) != Some(id)
    ensures id in Step(s, e).requests && Step(s, e).requests[id] == s.requests[id]
  {
  }

  /** What a Resolve has become: its kind, process and code stay, an answer is final, a leader
      goes on leading, who waits for another goes on waiting until it is given the copy. */
  predicate Becomes(q: Request, r: Request) {
    && (q.Resolve? <==> r.Resolve?)
    && (q.Resolve? ==>
         && GroupOf(r) == GroupOf(q)
         && (q.stage.Answered? || q.stage.Shared? ==> r.stage == q.stage)
         && (Loading(q.stage) ==> Loading(r.stage) || r.stage.Answered? || r.stage.Broken?)
         && (q.stage.Broken? ==> r.stage.Broken?)
         && (q.stage.Waiting? ==> r.stage == q.stage || r.stage.Broken? || (r.stage.Shared? && r.stage.leader == q.stage.leader)))
  }

  predicate Loading(stage: Stage) {
    stage.ReadRemote? || stage.GotRemote? || stage.ReadRow? || stage.GotRow?
  }

  lemma ResolveBecomes(s: State, e: Event)
    requires OfResolve(e) && ResolveEnabled(s, e) && e.id in s.requests
    ensures Becomes(s.requests[e.id], Resolved(s, e))
  {
  }

  lemma FlightBecomes(s: State, e: Event)
    requires OfFlight(e) && FlightEnabled(s, e)
    ensures e.id in s.requests && e.id in FlightStep(s, e).requests
    ensures Becomes(s.requests[e.id], FlightStep(s, e).requests[e.id])
  {
  }

  lemma RequestBecomes(s: State, e: Event, id: nat)
    requires Enabled(s, e) && id in s.requests
    ensures id in Step(s, e).requests && Becomes(s.requests[id], Step(s, e).requests[id])
  {
    if OwnerOf(e) != Some(id) {
      OthersUntouched(s, e, id);
    } else if OfResolve(e) {
      ResolveBecomes(s, e);
    } else if OfFlight(e) {
      FlightBecomes(s, e);
    }
  }

  lemma LeadersLead(s: State, e: Event)
    requires Enabled(s, e)
    ensures forall id, key :: IsLeader(s, id, key) ==>
              IsLeader(Step(s, e), id, key) &&
              (s.requests[id].stage.Answered? ==> Step(s, e).requests[id].stage == s.requests[id].stage)
  {
    forall id, key | IsLeader(s, id, key)
      ensures IsLeader(Step(s, e), id, key)
      ensures s.requests[id].stage.Answered? ==> Step(s, e).requests[id].stage == s.requests[id].stage
    {
      RequestBecomes(s, e, id);
    }
  }

  lemma FlightKeepsShares(s: State, e: Event, id: nat)
    requires FlightsOk(s) && OfFlight(e) && FlightEnabled(s, e) && id in s.requests
    requires forall l, key :: IsLeader(s, l, key) ==>
               IsLeader(FlightStep(s, e), l, key) &&
               (s.requests[l].stage.Answered? ==> FlightStep(s, e).requests[l].stage == s.requests[l].stage)
    ensures SharesOk(FlightStep(s, e), FlightStep(s, e).requests[id])
  {
    assert SharesOk(s, s.requests[id]);
  }

  lemma FlightsAreLed(s: State, e: Event)
    requires FlightsOk(s) && OfFlight(e) && FlightEnabled(s, e)
    requires forall l, key :: IsLeader(s, l, key) ==> IsLeader(FlightStep(s, e), l, key)
    ensures var t := FlightStep(s, e); forall key :: key in t.flights ==> IsLeader(t, t.flights[key], key)
  {
  }

  lemma FlightKeepsFlights(s: State, e: Event)
    requires FlightsOk(s) && OfFlight(e) && FlightEnabled(s, e)
    ensures FlightsOk(FlightStep(s, e))
  {
    LeadersLead(s, e);
    FlightsAreLed(s, e);
    forall id | id in s.requests
      ensures SharesOk(FlightStep(s, e), FlightStep(s, e).requests[id])
    {
      FlightKeepsShares(s, e, id);
    }
  }

  /** Only events of a flight make a request wait or share. */
  lemma NoneNewlyShares(s: State, e: Event, id: nat)
    requires Enabled(s, e) && !OfFlight(e) && id in Step(s, e).requests
    ensures var r := Step(s, e).requests[id];
            r.Resolve? && (r.stage.Waiting? || r.stage.Shared?) ==>
              id in s.requests && s.requests[id].Resolve? && r.stage == s.requests[id].stage && GroupOf(r) == GroupOf(s.requests[id])
  {
    if OfResolve(e) && e.id == id {
      ResolvedIsOwn(s, e);
    }
  }

  lemma ResolvedIsOwn(s: State, e: Event)
    requires OfResolve(e) && ResolveEnabled(s, e)
    ensures Resolved(s, e).Resolve? && !Resolved(s, e).stage.Waiting? && !Resolved(s, e).stage.Shared?
  {
  }

  lemma KeepsFlights(s: State, e: Event)
    requires FlightsOk(s) && Enabled(s, e)
    ensures FlightsOk(Step(s, e))
  {
    if OfFlight(e) {
      FlightKeepsFlights(s, e);
    } else {
      LeadersLead(s, e);
      forall id | id in Step(s, e).requests
        ensures SharesOk(Step(s, e), Step(s, e).requests[id])
      {
        NoneNewlyShares(s, e, id);
        if id in s.requests {
          assert SharesOk(s, s.requests[id]);
        }
      }
    }
  }

  lemma KeepsInv(s: State, e: Event)
    requires Inv(s) && Enabled(s, e)
    ensures Inv(Step(s, e))
  {
    OnlyExpiredRowsGo(s, e);
    KeepsCaches(s, e);
    KeepsFlights(s, e);
  }

  // ---------------------------------------------------- what Resolve answers

  lemma TableIsOk(b: Bloom.State)
    requires Bloom.Rows(b)
    ensures TableOk(b.table)
    ensures forall r :: r in b.table ==> r.id in b.adders && b.adders[r.id].row == r && r.code == NewShortCode(r.id)
  {
    forall r | r in b.table
      ensures ShardIndexFromCode(r.code).Some?
    {
      IssuedCodeIsValid(r.id);
    }
    forall x, y | x in b.table && y in b.table && x.code == y.code
      ensures x == y
    {
      EncodeInjective(x.id, y.id);
    }
  }

  /** This step settles the answer of a Resolve. */
  ghost predicate Settles(s: State, e: Event, id: nat) {
    && Enabled(s, e) && id in Step(s, e).requests
    && Step(s, e).requests[id].Resolve? && Step(s, e).requests[id].stage.Answered?
    && (id in s.requests ==> s.requests[id].Resolve? && !s.requests[id].stage.Answered?)
  }

  /** The Add of this row has not reached the main filter, has failed before it could, or has
      been dropped by a rebuild's finish (BloomProtocol.DroppedExactlyWhen). */
  predicate Unadded(a: Bloom.Adder) {
    a.phase.Committed? || a.phase.GotKeys? || a.phase.AddFailed? || a.dropped
  }

  /** The filter answers for a link that is active but whose Add is pending, failed or dropped. */
  ghost predicate FilterMisses(s: State, e: Event, id: nat) {
    && e == FilterSaysNo(id) && id in s.requests && s.requests[id].Resolve?
    && exists r :: r in s.Table() && r.code == s.requests[id].code && r.IsActive(s.Clock())
         && r.id in s.bloom.adders && Unadded(s.bloom.adders[r.id])
  }

  /** The filter says no to the code of an active link. */
  ghost predicate FilterDenies(s: State, e: Event, id: nat) {
    && e == FilterSaysNo(id) && id in s.requests && s.requests[id].Resolve?
    && exists r :: r in s.Table() && r.code == s.requests[id].code && r.IsActive(s.Clock())
  }

  /** Once the main filter is right, it denies an active link only if the link's Add is
      pending, failed or dropped. */
  lemma DenialIsMiss(s: State, e: Event, id: nat)
    requires Inv(s) && Bloom.Main(s.bloom) && Enabled(s, e)
    ensures FilterDenies(s, e, id) <==> FilterMisses(s, e, id)
  {
    if FilterDenies(s, e, id) {
      var r :| r in s.Table() && r.code == s.requests[id].code && r.IsActive(s.Clock());
      assert Unadded(s.bloom.adders[r.id]);
    }
  }

  /** The step that settles an answer settles it as the table stands, if and only if it is not
      the filter's no to an active link. */
  lemma SettledAnswerAgrees(s: State, e: Event, id: nat)
    requires Inv(s) && Settles(s, e, id)
    ensures var r := Step(s, e).requests[id];
            Agrees(s.Table(), r.code, s.Clock(), r.stage.result) <==> !FilterDenies(s, e, id)
  {
    SettlesItself(s, e, id);
    if e.CheckItem? {
      CheckAgrees(s, id);
    } else if e.FilterSaysNo? {
      NoDisagreesExactlyWhen(s, id);
    } else {
      MissingAgrees(s, e);
    }
  }

  lemma MissingAgrees(s: State, e: Event)
    requires (e.StartResolve? || e.RowMissing?) && ResolveEnabled(s, e) && Resolved(s, e).stage.Answered?
    ensures Agrees(s.Table(), Resolved(s, e).code, s.Clock(), Resolved(s, e).stage.result)
  {
  }

  /** Only steps of its own settle an answer. */
  lemma SettlesItself(s: State, e: Event, id: nat)
    requires Settles(s, e, id)
    ensures OfResolve(e) && e.id == id && Step(s, e).requests[id] == Resolved(s, e)
    ensures e.StartResolve? || e.FilterSaysNo? || e.CheckItem? || e.RowMissing?
  {
    if !OfResolve(e) {
      OnlyResolvesAnswer(s, e, id);
    }
  }

  lemma OnlyResolvesAnswer(s: State, e: Event, id: nat)
    requires Enabled(s, e) && !OfResolve(e) && id in Step(s, e).requests
    requires Step(s, e).requests[id].Resolve? && Step(s, e).requests[id].stage.Answered?
    ensures id in s.requests && s.requests[id].Resolve? && s.requests[id].stage.Answered?
  {
    if OfFlight(e) {
      assert id in s.requests;
    }
  }

  lemma CheckAgrees(s: State, id: nat)
    requires Inv(s) && ResolveEnabled(s, CheckItem(id)) && Checked(s.requests[id], s.Clock()).stage.Answered?
    ensures Agrees(s.Table(), s.requests[id].code, s.Clock(), Checked(s.requests[id], s.Clock()).stage.result)
  {
    var r := s.requests[id];
    assert RequestOk(s, r);
    TableIsOk(s.bloom);
    FoundMeansActive(s.Table(), r.code, s.Clock(), r.stage.item);
    var direct := DirectLookup(s.Table(), r.code, s.Clock());
    if direct.Found? {
      FoundMeansActive(s.Table(), r.code, s.Clock(), direct.item);
      SameCodeSameRow(s.bloom, direct.item.id, r.stage.item.id);
    }
  }

  lemma SameCodeSameRow(b: Bloom.State, i: uint64, j: uint64)
    requires Bloom.Rows(b) && i in b.adders && j in b.adders && b.adders[i].row.code == b.adders[j].row.code
    ensures i == j
  {
    EncodeInjective(i, j);
  }

  lemma NoDisagreesExactlyWhen(s: State, id: nat)
    requires Inv(s) && Enabled(s, FilterSaysNo(id))
    ensures Agrees(s.Table(), s.requests[id].code, s.Clock(), NotFound) <==> !FilterDenies(s, FilterSaysNo(id), id)
  {
    TableIsOk(s.bloom);
    FoundExactlyWhen(s.Table(), s.requests[id].code, s.Clock());
  }
}
