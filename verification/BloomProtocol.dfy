/** The filter rebuild protocol (internal/infrastructure/filter/bloom.go), with the paged
    scan that feeds it and the row-before-filter order of CreateShortLink.

    Any number of Adds and Rebuilds run concurrently; every Redis command, every page
    read, the row commit and the finish script is one atomic event.  An Add is named by
    the id of its row, a Rebuild by its temp key, which is fresh.
 */
module BloomProtocol {
  import opened Options
  import opened Base62
  import opened Links
  import opened RedisStore
  import opened Tables

  const MAIN: string := "flashlink:filter:codes"

  /** How far one Add has come.  `temp` is the rebuild key its GET of the marker returned. */
  datatype AddPhase =
    | Committed // the row is in its table
    | GotKeys(temp: Option<string>)
    | MainAdded(next: string) // still has to add to the temp key
    | Added(temp: Option<string>) // returned success
    | AddFailed

  /** `dropped` records that a winning finish lost this Add's code: the Add had read the
      finishing rebuild's key and was between its two BF.ADDs, and none of the pages the
      rebuild had added contained the row.  A later winning finish whose pages do contain
      it clears the record.
   */
  datatype Adder = Adder(row: ShortLink, phase: AddPhase, dropped: bool)

  datatype RebuildPhase =
    | Marked
    | Reserved
    | Scanning(now: Time, shard: nat, lastID: uint64)
    | PageRead(now: Time, shard: nat, page: seq<ShortLink>)
    | Scanned
    | Undoing // an error: DEL temp comes next
    | Unmarking // then DEL marker
    | Won
    | Overtaken
    | Failed

  /** `base` is the set of rows committed before the marker was written, `handed` the codes
      the scan has added to the temp filter. */
  datatype Rebuilder = Rebuilder(batch: nat, base: set<uint64>, handed: set<string>, phase: RebuildPhase)

  datatype State = State(
    clock: Time,
    table: set<ShortLink>,
    redis: Redis,
    adders: map<uint64, Adder>,
    rebuilders: map<string, Rebuilder>)

  datatype Event =
    | Commit(row: ShortLink)
    | GetMarker(id: uint64)
    | AddMain(id: uint64)
    | AddTemp(id: uint64)
    | AddError(id: uint64)
    | SetMarker(temp: string, batch: int)
    | Reserve(temp: string)
    | ReserveError(temp: string)
    | StartScan(temp: string)
    | ReadPage(temp: string, page: seq<ShortLink>)
    | AddPage(temp: string)
    | ScanError(temp: string)
    | DelTemp(temp: string, ok: bool)
    | DelMarker(temp: string, ok: bool)
    | Finish(temp: string)
    | FinishError(temp: string)
    | Tick(now: Time)
    | Purge(rows: set<ShortLink>)

  // -------------------------------------------------------------- the steps

  predicate OfAdd(e: Event) {
    e.Commit? || e.GetMarker? || e.AddMain? || e.AddTemp? || e.AddError?
  }

  predicate OfRebuild(e: Event) {
    e.SetMarker? || e.Reserve? || e.ReserveError? || e.StartScan? || e.ReadPage? || e.AddPage? || e.ScanError?
  }

  predicate OfExit(e: Event) {
    e.DelTemp? || e.DelMarker? || e.Finish? || e.FinishError?
  }

  predicate AddEnabled(s: State, e: Event)
    requires OfAdd(e)
  {
    match e
    case Commit(row) => row.id != 0 && row.code == NewShortCode(row.id) && row.id !in s.adders
    case GetMarker(id) => id in s.adders && s.adders[id].phase.Committed?
    case AddMain(id) => id in s.adders && s.adders[id].phase.GotKeys?
    case AddTemp(id) => id in s.adders && s.adders[id].phase.MainAdded?
    case AddError(id) => id in s.adders && !s.adders[id].phase.Added? && !s.adders[id].phase.AddFailed?
  }

  ghost predicate RebuildEnabled(s: State, e: Event)
    requires OfRebuild(e)
  {
    match e
    case SetMarker(temp, _) => temp !in s.rebuilders && temp != MAIN && temp != ""
    case Reserve(temp) => temp in s.rebuilders && s.rebuilders[temp].phase.Marked?
    case ReserveError(temp) => temp in s.rebuilders && s.rebuilders[temp].phase.Marked?
    case StartScan(temp) => temp in s.rebuilders && s.rebuilders[temp].phase.Reserved?
    case ReadPage(temp, page) =>
      && temp in s.rebuilders && s.rebuilders[temp].phase.Scanning?
      && var p := s.rebuilders[temp].phase;
         IsPage(ActiveAfter(s.table, p.shard, p.lastID, p.now), ById, s.rebuilders[temp].batch, page)
    case AddPage(temp) => temp in s.rebuilders && s.rebuilders[temp].phase.PageRead?
    case ScanError(temp) => temp in s.rebuilders && InScan(s.rebuilders[temp].phase)
  }

  predicate ExitEnabled(s: State, e: Event)
    requires OfExit(e)
  {
    match e
    case DelTemp(temp, _) => temp in s.rebuilders && s.rebuilders[temp].phase.Undoing?
    case DelMarker(temp, _) => temp in s.rebuilders && s.rebuilders[temp].phase.Unmarking?
    case Finish(temp) => temp in s.rebuilders && s.rebuilders[temp].phase.Scanned?
    case FinishError(temp) => temp in s.rebuilders && s.rebuilders[temp].phase.Scanned?
  }

  ghost predicate Enabled(s: State, e: Event) {
    if OfAdd(e) then AddEnabled(s, e)
    else if OfRebuild(e) then RebuildEnabled(s, e)
    else if OfExit(e) then ExitEnabled(s, e)
    else if e.Tick? then s.clock <= e.now
    else forall r :: r in e.rows ==> r in s.table && r.IsExpired(s.clock)
  }

  predicate InScan(p: RebuildPhase) {
    p.Reserved? || p.Scanning? || p.PageRead?
  }

  function SetAdd(s: State, id: uint64, p: AddPhase): State
    requires id in s.adders
  {
    s.(adders := s.adders[id := s.adders[id].(phase := p)])
  }

  function SetRebuild(s: State, temp: string, p: RebuildPhase): State
    requires temp in s.rebuilders
  {
    s.(rebuilders := s.rebuilders[temp := s.rebuilders[temp].(phase := p)])
  }

  function NextShard(now: Time, shard: nat): RebuildPhase {
    if shard + 1 >= SHARD_COUNT then Scanned else Scanning(now, shard + 1, 0)
  }

  /** Where the scan goes on after a nonempty page. */
  function AfterPage(p: RebuildPhase, batch: nat): RebuildPhase
    requires p.PageRead?
  {
    if |p.page| < batch || p.page == [] then NextShard(p.now, p.shard)
    else Scanning(p.now, p.shard, p.page[|p.page| - 1].id)
  }

  /** What a winning finish of `temp` does to the record of one Add. */
  function Recheck(a: Adder, temp: string, handed: set<string>): Adder {
    a.(dropped := a.row.code !in handed && (a.dropped || a.phase == MainAdded(temp)))
  }

  function Win(s: State, temp: string): State
    requires temp in s.rebuilders
  {
    var handed := s.rebuilders[temp].handed;
    SetRebuild(s.(redis := s.redis.FinishScript(MAIN, temp),
                  adders := map id | id in s.adders :: Recheck(s.adders[id], temp, handed)),
               temp, Won)
  }

  function AddStep(s: State, e: Event): State
    requires OfAdd(e) && AddEnabled(s, e)
  {
    match e
    case Commit(row) =>
      s.(table := s.table + {row}, adders := s.adders[row.id := Adder(row, Committed, false)])
    case GetMarker(id) =>
      SetAdd(s, id, GotKeys(if s.redis.marker == Some("") then None else s.redis.marker))
    case AddMain(id) =>
      var a := s.adders[id];
      SetAdd(s.(redis := s.redis.Add(MAIN, {a.row.code})), id,
             if a.phase.temp.Some? then MainAdded(a.phase.temp.value) else Added(None))
    case AddTemp(id) =>
      var a := s.adders[id];
      SetAdd(s.(redis := s.redis.Add(a.phase.next, {a.row.code})), id, Added(Some(a.phase.next)))
    case AddError(id) => SetAdd(s, id, AddFailed)
  }

  ghost function RebuildStep(s: State, e: Event): State
    requires OfRebuild(e) && RebuildEnabled(s, e)
  {
    match e
    case SetMarker(temp, batch) =>
      s.(redis := s.redis.SetMarker(temp),
         rebuilders := s.rebuilders[temp := Rebuilder(if batch <= 0 then 1000 else batch, s.adders.Keys, {}, Marked)])
    case Reserve(temp) => SetRebuild(s.(redis := s.redis.Reserve(temp)), temp, Reserved)
    case ReserveError(temp) => SetRebuild(s, temp, Unmarking)
    case StartScan(temp) => SetRebuild(s, temp, Scanning(s.clock, 0, 0))
    case ReadPage(temp, page) =>
      var p := s.rebuilders[temp].phase;
      SetRebuild(s, temp, if page == [] then NextShard(p.now, p.shard) else PageRead(p.now, p.shard, page))
    case AddPage(temp) =>
      var r := s.rebuilders[temp];
      var codes := CodeSet(r.phase.page);
      s.(redis := s.redis.Add(temp, codes),
         rebuilders := s.rebuilders[temp := r.(handed := r.handed + codes, phase := AfterPage(r.phase, r.batch))])
    case ScanError(temp) => SetRebuild(s, temp, Undoing)
  }

  function ExitStep(s: State, e: Event): State
    requires OfExit(e) && ExitEnabled(s, e)
  {
    match e
    case DelTemp(temp, ok) => SetRebuild(if ok then s.(redis := s.redis.Del(temp)) else s, temp, Unmarking)
    case DelMarker(temp, ok) => SetRebuild(if ok then s.(redis := s.redis.DelMarker()) else s, temp, Failed)
    case Finish(temp) => if s.redis.Swaps(temp) then Win(s, temp) else SetRebuild(s, temp, Overtaken)
    case FinishError(temp) => SetRebuild(s, temp, Failed)
  }

  ghost function Step(s: State, e: Event): State
    requires Enabled(s, e)
  {
    if OfAdd(e) then AddStep(s, e)
    else if OfRebuild(e) then RebuildStep(s, e)
    else if OfExit(e) then ExitStep(s, e)
    else if e.Tick? then s.(clock := e.now)
    else s.(table := s.table - e.rows)
  }

  // ---------------------------------------------------------- the invariant

  /** Every Add is for its own row; rows are only ever removed. */
  ghost predicate Rows(s: State) {
    && (forall id :: id in s.adders ==>
          id != 0 && s.adders[id].row.id == id && s.adders[id].row.code == NewShortCode(id))
    && (forall r :: r in s.table ==> r.id in s.adders && s.adders[r.id].row == r)
  }

  function TempOf(p: AddPhase): Option<string> {
    match p
    case GotKeys(temp) => temp
    case MainAdded(next) => Some(next)
    case Added(temp) => temp
    case _ => None
  }

  /** Keys in use belong to a rebuild. */
  ghost predicate Keys(s: State) {
    && MAIN !in s.rebuilders && "" !in s.rebuilders
    && (s.redis.marker.Some? ==> s.redis.marker.value in s.rebuilders)
    && (forall k :: k in s.redis.filters ==> k == MAIN || k in s.rebuilders)
    && (forall id :: id in s.adders && TempOf(s.adders[id].phase).Some? ==>
          TempOf(s.adders[id].phase).value in s.rebuilders)
  }

  predicate InProgress(p: RebuildPhase) {
    p.Marked? || InScan(p) || p.Scanned?
  }

  /** The rebuild whose finish would win: the marker names it and no error stopped it. */
  ghost predicate Live(s: State, temp: string) {
    temp in s.rebuilders && s.redis.marker == Some(temp) && InProgress(s.rebuilders[temp].phase)
  }

  ghost predicate Scans(s: State) {
    forall temp :: temp in s.rebuilders ==> ScanOk(s, temp, s.rebuilders[temp])
  }

  ghost predicate ScanOk(s: State, temp: string, r: Rebuilder) {
    && r.batch > 0
    && r.base <= s.adders.Keys
    && (InProgress(r.phase) && !r.phase.Marked? ==> temp in s.redis.filters)
    && (InProgress(r.phase) ==> r.handed <= s.redis.Filter(temp))
    && (r.phase.Scanning? || r.phase.PageRead? ==> r.phase.now <= s.clock && r.phase.shard < SHARD_COUNT)
  }

  predicate Beyond(p: RebuildPhase, r: ShortLink) {
    var shard := ShardIndexFromID(r.id);
    p.Scanning? && (shard > p.shard || (shard == p.shard && r.id > p.lastID))
  }

  /** The scan has yet to come to this row, or has it in hand. */
  predicate Ahead(p: RebuildPhase, batch: nat, r: ShortLink) {
    p.Marked? || p.Reserved? || Beyond(p, r) ||
    (p.PageRead? && (r in p.page || Beyond(AfterPage(p, batch), r)))
  }

  /** A live rebuild will have covered every row committed before it wrote the marker. */
  ghost predicate Covers(s: State) {
    forall temp, r :: Live(s, temp) && r in s.table && r.id in s.rebuilders[temp].base && r.IsActive(s.clock) ==>
      r.code in s.redis.Filter(temp) || Ahead(s.rebuilders[temp].phase, s.rebuilders[temp].batch, r)
  }

  /** An Add of a later row has seen the marker of the live rebuild. */
  ghost predicate Seen(s: State) {
    forall temp, id :: Live(s, temp) && id in s.adders && id !in s.rebuilders[temp].base ==>
      var p := s.adders[id].phase;
      && (p.GotKeys? || p.MainAdded? || p.Added? ==> TempOf(p) == Some(temp))
  }

  /** A temp filter holds an Add's code only if the scan or the Add itself put it there. */
  ghost predicate Accounted(s: State) {
    forall temp, id :: temp in s.rebuilders && id in s.adders && s.adders[id].row.code in s.redis.Filter(temp) ==>
      s.adders[id].row.code in s.rebuilders[temp].handed || s.adders[id].phase == Added(Some(temp))
  }

  ghost predicate Reached(s: State) {
    forall temp, id :: Live(s, temp) && id in s.adders && s.adders[id].phase == Added(Some(temp)) ==>
      s.adders[id].row.code in s.redis.Filter(temp)
  }

  ghost predicate Contents(s: State) {
    Accounted(s) && Reached(s)
  }

  function KnownCodes(s: State): set<string> {
    set id | id in s.adders :: s.adders[id].row.code
  }

  /** Codes reach a temp filter from committed rows only. */
  ghost predicate Known(s: State) {
    forall temp :: temp in s.rebuilders ==>
      && s.redis.Filter(temp) <= KnownCodes(s)
      && (s.rebuilders[temp].phase.PageRead? ==> CodeSet(s.rebuilders[temp].phase.page) <= KnownCodes(s))
  }

  /** Only the finish of the rebuild an Add has seen can drop its code. */
  ghost predicate Drops(s: State) {
    forall id :: id in s.adders && s.adders[id].dropped ==>
      var p := s.adders[id].phase;
      p.AddFailed? || ((p.MainAdded? || p.Added?) && TempOf(p).Some? && TempOf(p) != s.redis.marker)
  }

  /** The main filter holds the code of an active row, once added, unless it was dropped. */
  ghost predicate Main(s: State) {
    forall r :: r in s.table && r.IsActive(s.clock) && r.id in s.adders
                && (s.adders[r.id].phase.MainAdded? || s.adders[r.id].phase.Added?) ==>
      (r.code in s.redis.Filter(MAIN) <==> !s.adders[r.id].dropped)
  }

  /** What holds whatever is in the main filter: it may be missing, or have lost its codes. */
  ghost predicate Sound(s: State) {
    Rows(s) && Keys(s) && Scans(s) && Covers(s) && Seen(s) && Contents(s) && Known(s) && Drops(s)
  }

  ghost predicate Inv(s: State) {
    Sound(s) && Main(s)
  }

  lemma CodesDiffer(s: State)
    requires Rows(s)
    ensures forall i, j :: i in s.adders && j in s.adders && s.adders[i].row.code == s.adders[j].row.code ==> i == j
  {
    forall i, j | i in s.adders && j in s.adders && s.adders[i].row.code == s.adders[j].row.code
      ensures i == j
    {
      EncodeInjective(i, j);
    }
  }

  lemma NewCode(s: State, id: uint64)
    requires Rows(s) && id !in s.adders
    ensures NewShortCode(id) !in KnownCodes(s)
  {
    forall i | i in s.adders
      ensures s.adders[i].row.code != NewShortCode(id)
    {
      if s.adders[i].row.code == NewShortCode(id) {
        EncodeInjective(i, id);
      }
    }
  }

  /** Reading a page moves the cursor past no row it leaves out. */
  lemma PageMissesNothing(s: State, temp: string, page: seq<ShortLink>, r: ShortLink)
    requires Rows(s) && Scans(s) && RebuildEnabled(s, ReadPage(temp, page))
    requires r in s.table && r.IsActive(s.clock)
    requires Beyond(s.rebuilders[temp].phase, r)
    ensures Ahead(RebuildStep(s, ReadPage(temp, page)).rebuilders[temp].phase, s.rebuilders[temp].batch, r)
  {
    IssuedCodeIsValid(r.id);
    var p := s.rebuilders[temp].phase;
    if InShard(r, p.shard) {
      assert r in ActiveAfter(s.table, p.shard, p.lastID, p.now);
    }
  }

  lemma KnownGrows(s: State, s': State)
    requires forall id :: id in s.adders ==> id in s'.adders && s'.adders[id].row == s.adders[id].row
    ensures KnownCodes(s) <= KnownCodes(s')
  {
  }

  // What the events of an Add keep.

  lemma AddKeepsRows(s: State, e: Event)
    requires Rows(s) && OfAdd(e) && AddEnabled(s, e)
    ensures Rows(AddStep(s, e))
  {
  }

  lemma AddKeepsKeys(s: State, e: Event)
    requires Keys(s) && OfAdd(e) && AddEnabled(s, e)
    ensures Keys(AddStep(s, e))
  {
  }

  lemma AddKeepsScans(s: State, e: Event)
    requires Keys(s) && Scans(s) && OfAdd(e) && AddEnabled(s, e)
    ensures Scans(AddStep(s, e))
  {
  }

  lemma AddKeepsCoverage(s: State, e: Event)
    requires Rows(s) && Keys(s) && Scans(s) && Covers(s) && Seen(s) && OfAdd(e) && AddEnabled(s, e)
    ensures Covers(AddStep(s, e)) && Seen(AddStep(s, e))
  {
  }

  lemma AddKeepsKnown(s: State, e: Event)
    requires Rows(s) && Keys(s) && Known(s) && OfAdd(e) && AddEnabled(s, e)
    ensures Known(AddStep(s, e))
  {
    KnownGrows(s, AddStep(s, e));
  }

  lemma AddKeepsContents(s: State, e: Event)
    requires Rows(s) && Keys(s) && Known(s) && Contents(s) && OfAdd(e) && AddEnabled(s, e)
    ensures Contents(AddStep(s, e))
  {
    if e.Commit? {
      CommitKeepsContents(s, e.row);
    } else if e.AddTemp? {
      AddTempKeepsContents(s, e.id);
    }
  }

  lemma CommitKeepsContents(s: State, row: ShortLink)
    requires Rows(s) && Known(s) && Contents(s) && AddEnabled(s, Commit(row))
    ensures Contents(AddStep(s, Commit(row)))
  {
    NewCode(s, row.id);
  }

  lemma AddTempKeepsContents(s: State, id: uint64)
    requires Rows(s) && Keys(s) && Contents(s) && AddEnabled(s, AddTemp(id))
    ensures Contents(AddStep(s, AddTemp(id)))
  {
    AddTempAccounted(s, id);
    AddTempReached(s, id);
  }

  lemma AddTempAccounted(s: State, id: uint64)
    requires Rows(s) && Accounted(s) && AddEnabled(s, AddTemp(id))
    ensures Accounted(AddStep(s, AddTemp(id)))
  {
    CodesDiffer(s);
  }

  lemma AddTempReached(s: State, id: uint64)
    requires Reached(s) && AddEnabled(s, AddTemp(id))
    ensures Reached(AddStep(s, AddTemp(id)))
  {
  }

  lemma AddKeepsDrops(s: State, e: Event)
    requires Keys(s) && Drops(s) && OfAdd(e) && AddEnabled(s, e)
    ensures Drops(AddStep(s, e))
  {
  }

  lemma AddKeepsMain(s: State, e: Event)
    requires Rows(s) && Keys(s) && Drops(s) && Main(s) && OfAdd(e) && AddEnabled(s, e)
    ensures Main(AddStep(s, e))
  {
    if e.AddMain? {
      AddMainKeepsMain(s, e.id);
    } else if e.AddTemp? {
      AddTempKeepsMain(s, e.id);
    }
  }

  lemma AddMainKeepsMain(s: State, id: uint64)
    requires Rows(s) && Drops(s) && Main(s) && AddEnabled(s, AddMain(id))
    ensures Main(AddStep(s, AddMain(id)))
  {
    CodesDiffer(s);
  }

  lemma AddTempKeepsMain(s: State, id: uint64)
    requires Keys(s) && Main(s) && AddEnabled(s, AddTemp(id))
    ensures Main(AddStep(s, AddTemp(id)))
  {
    assert AddStep(s, AddTemp(id)).redis.Filter(MAIN) == s.redis.Filter(MAIN);
  }

  // What the events of a rebuild up to the end of its scan keep.

  lemma RebuildKeepsRows(s: State, e: Event)
    requires Rows(s) && OfRebuild(e) && RebuildEnabled(s, e)
    ensures Rows(RebuildStep(s, e))
  {
  }

  lemma RebuildKeepsKeys(s: State, e: Event)
    requires Keys(s) && OfRebuild(e) && RebuildEnabled(s, e)
    ensures Keys(RebuildStep(s, e))
  {
  }

  lemma RebuildKeepsScans(s: State, e: Event)
    requires Keys(s) && Scans(s) && OfRebuild(e) && RebuildEnabled(s, e)
    ensures Scans(RebuildStep(s, e))
  {
  }

  lemma RebuildKeepsCovers(s: State, e: Event)
    requires Rows(s) && Keys(s) && Scans(s) && Covers(s) && OfRebuild(e) && RebuildEnabled(s, e)
    ensures Covers(RebuildStep(s, e))
  {
    if e.ReadPage? {
      ReadPageKeepsCovers(s, e.temp, e.page);
    } else if e.AddPage? {
      AddPageKeepsCovers(s, e.temp);
    } else {
      OthersKeepCovers(s, e);
    }
  }

  lemma ReadPageKeepsCovers(s: State, temp: string, page: seq<ShortLink>)
    requires Rows(s) && Scans(s) && Covers(s) && RebuildEnabled(s, ReadPage(temp, page))
    ensures Covers(RebuildStep(s, ReadPage(temp, page)))
  {
    forall r | r in s.table && r.IsActive(s.clock) && Beyond(s.rebuilders[temp].phase, r)
      ensures Ahead(RebuildStep(s, ReadPage(temp, page)).rebuilders[temp].phase, s.rebuilders[temp].batch, r)
    {
      PageMissesNothing(s, temp, page, r);
    }
  }

  lemma AddPageKeepsCovers(s: State, temp: string)
    requires Covers(s) && RebuildEnabled(s, AddPage(temp))
    ensures Covers(RebuildStep(s, AddPage(temp)))
  {
  }

  lemma OthersKeepCovers(s: State, e: Event)
    requires Rows(s) && Keys(s) && Scans(s) && Covers(s) && OfRebuild(e) && RebuildEnabled(s, e) && !e.ReadPage? && !e.AddPage?
    ensures Covers(RebuildStep(s, e))
  {
  }

  lemma RebuildKeepsSeen(s: State, e: Event)
    requires Keys(s) && Scans(s) && Seen(s) && OfRebuild(e) && RebuildEnabled(s, e)
    ensures Seen(RebuildStep(s, e))
  {
  }

  lemma RebuildKeepsKnown(s: State, e: Event)
    requires Rows(s) && Keys(s) && Known(s) && OfRebuild(e) && RebuildEnabled(s, e)
    ensures Known(RebuildStep(s, e))
  {
    KnownGrows(s, RebuildStep(s, e));
  }

  lemma RebuildKeepsContents(s: State, e: Event)
    requires Keys(s) && Contents(s) && OfRebuild(e) && RebuildEnabled(s, e)
    ensures Contents(RebuildStep(s, e))
  {
    if e.SetMarker? {
      MarkKeepsContents(s, e);
    } else if e.AddPage? {
      AddPageKeepsContents(s, e.temp);
    } else {
      ScanKeepsContents(s, e);
    }
  }

  lemma MarkKeepsContents(s: State, e: Event)
    requires Keys(s) && Contents(s) && e.SetMarker? && RebuildEnabled(s, e)
    ensures Contents(RebuildStep(s, e))
  {
  }

  lemma AddPageKeepsContents(s: State, temp: string)
    requires Contents(s) && RebuildEnabled(s, AddPage(temp))
    ensures Contents(RebuildStep(s, AddPage(temp)))
  {
  }

  lemma ScanKeepsContents(s: State, e: Event)
    requires Contents(s) && OfRebuild(e) && RebuildEnabled(s, e) && !e.SetMarker? && !e.AddPage?
    ensures Contents(RebuildStep(s, e))
  {
  }

  lemma RebuildKeepsDrops(s: State, e: Event)
    requires Keys(s) && Drops(s) && OfRebuild(e) && RebuildEnabled(s, e)
    ensures Drops(RebuildStep(s, e))
  {
  }

  lemma RebuildKeepsMain(s: State, e: Event)
    requires Keys(s) && Main(s) && OfRebuild(e) && RebuildEnabled(s, e)
    ensures Main(RebuildStep(s, e))
  {
  }

  // What the error exits and the finish keep.

  lemma ExitKeepsRows(s: State, e: Event)
    requires Rows(s) && OfExit(e) && ExitEnabled(s, e)
    ensures Rows(ExitStep(s, e))
  {
  }

  lemma ExitKeepsKeys(s: State, e: Event)
    requires Keys(s) && OfExit(e) && ExitEnabled(s, e)
    ensures Keys(ExitStep(s, e))
  {
  }

  lemma ExitKeepsScans(s: State, e: Event)
    requires Keys(s) && Scans(s) && OfExit(e) && ExitEnabled(s, e)
    ensures Scans(ExitStep(s, e))
  {
  }

  lemma ExitKeepsCoverage(s: State, e: Event)
    requires Keys(s) && Scans(s) && Covers(s) && Seen(s) && OfExit(e) && ExitEnabled(s, e)
    ensures Covers(ExitStep(s, e)) && Seen(ExitStep(s, e))
  {
  }

  lemma ExitKeepsKnown(s: State, e: Event)
    requires Keys(s) && Known(s) && OfExit(e) && ExitEnabled(s, e)
    ensures Known(ExitStep(s, e))
  {
    KnownGrows(s, ExitStep(s, e));
  }

  lemma ExitKeepsContents(s: State, e: Event)
    requires Keys(s) && Contents(s) && OfExit(e) && ExitEnabled(s, e)
    ensures Contents(ExitStep(s, e))
  {
  }

  lemma WinReplacesMain(s: State, temp: string)
    requires Keys(s) && Wins(s, Finish(temp))
    ensures Live(s, temp) && Win(s, temp).redis.Filter(MAIN) == s.redis.Filter(temp)
  {
  }

  lemma WinRechecks(s: State, temp: string, id: uint64)
    requires temp in s.rebuilders && id in s.adders
    ensures id in Win(s, temp).adders
    ensures Win(s, temp).adders[id] == Recheck(s.adders[id], temp, s.rebuilders[temp].handed)
  {
  }

  /** After a winning finish the main filter holds an active row's code exactly when the
      rebuild's pages contained it or its Add had already reached the temp filter. */
  lemma WinDecides(s: State, temp: string, r: ShortLink)
    requires Sound(s) && Wins(s, Finish(temp))
    requires r in s.table && r.IsActive(s.clock) && r.id in s.adders
    requires s.adders[r.id].phase.MainAdded? || s.adders[r.id].phase.Added?
    ensures r.code in Win(s, temp).redis.Filter(MAIN) <==>
              r.code in s.rebuilders[temp].handed || s.adders[r.id].phase == Added(Some(temp))
  {
    WinReplacesMain(s, temp);
    assert ScanOk(s, temp, s.rebuilders[temp]);
    assert s.adders[r.id].row == r;
  }

  /** What is missing from the temp filter is what the finish records as dropped. */
  lemma WinRecords(s: State, temp: string, r: ShortLink)
    requires Sound(s) && Wins(s, Finish(temp))
    requires r in s.table && r.IsActive(s.clock) && r.id in s.adders
    requires s.adders[r.id].phase.MainAdded? || s.adders[r.id].phase.Added?
    ensures Win(s, temp).adders[r.id].dropped <==>
              !(r.code in s.rebuilders[temp].handed || s.adders[r.id].phase == Added(Some(temp)))
  {
    WinReplacesMain(s, temp);
    CoversOrSeen(s, temp, r);
    WinRechecks(s, temp, r.id);
    assert s.adders[r.id].row == r;
    if s.adders[r.id].dropped {
      DroppedHadSeen(s, temp, r.id);
    }
  }

  /** An Add dropped before has not seen the marker that stands. */
  lemma DroppedHadSeen(s: State, temp: string, id: uint64)
    requires Drops(s) && s.redis.marker == Some(temp) && id in s.adders && s.adders[id].dropped
    ensures TempOf(s.adders[id].phase) != Some(temp)
  {
  }

  /** A row whose code no page had was committed after the marker was written, so that its Add
      has seen the marker. */
  lemma CoversOrSeen(s: State, temp: string, r: ShortLink)
    requires Sound(s) && Live(s, temp) && s.rebuilders[temp].phase.Scanned?
    requires r in s.table && r.IsActive(s.clock) && r.id in s.adders
    requires s.adders[r.id].phase.MainAdded? || s.adders[r.id].phase.Added?
    ensures r.code in s.rebuilders[temp].handed || TempOf(s.adders[r.id].phase) == Some(temp)
  {
    if r.id in s.rebuilders[temp].base {
      assert !Ahead(s.rebuilders[temp].phase, s.rebuilders[temp].batch, r);
      assert s.adders[r.id].row.code in s.redis.Filter(temp);
    }
  }

  predicate Wins(s: State, e: Event) {
    e.Finish? && ExitEnabled(s, e) && s.redis.Swaps(e.temp)
  }

  lemma ExitKeepsDrops(s: State, e: Event)
    requires Keys(s) && Drops(s) && OfExit(e) && ExitEnabled(s, e)
    ensures Drops(ExitStep(s, e))
  {
  }

  lemma WinMakesMain(s: State, temp: string)
    requires Sound(s) && Wins(s, Finish(temp))
    ensures Main(Win(s, temp))
  {
    var s' := Win(s, temp);
    forall r | r in s'.table && r.IsActive(s'.clock) && r.id in s'.adders
               && (s'.adders[r.id].phase.MainAdded? || s'.adders[r.id].phase.Added?)
      ensures r.code in s'.redis.Filter(MAIN) <==> !s'.adders[r.id].dropped
    {
      WinDecides(s, temp, r);
      WinRecords(s, temp, r);
    }
  }

  lemma OtherExitsKeepMain(s: State, e: Event)
    requires Keys(s) && Main(s) && OfExit(e) && ExitEnabled(s, e) && !Wins(s, e)
    ensures Main(ExitStep(s, e))
  {
  }

  lemma AddKeepsSound(s: State, e: Event)
    requires Sound(s) && OfAdd(e) && AddEnabled(s, e)
    ensures Sound(AddStep(s, e))
  {
    AddKeepsRows(s, e);
    AddKeepsKeys(s, e);
    AddKeepsScans(s, e);
    AddKeepsCoverage(s, e);
    AddKeepsKnown(s, e);
    AddKeepsContents(s, e);
    AddKeepsDrops(s, e);
  }

  lemma RebuildKeepsSound(s: State, e: Event)
    requires Sound(s) && OfRebuild(e) && RebuildEnabled(s, e)
    ensures Sound(RebuildStep(s, e))
  {
    RebuildKeepsRows(s, e);
    RebuildKeepsKeys(s, e);
    RebuildKeepsScans(s, e);
    RebuildKeepsCovers(s, e);
    RebuildKeepsSeen(s, e);
    RebuildKeepsKnown(s, e);
    RebuildKeepsContents(s, e);
    RebuildKeepsDrops(s, e);
  }

  lemma ExitKeepsSound(s: State, e: Event)
    requires Sound(s) && OfExit(e) && ExitEnabled(s, e)
    ensures Sound(ExitStep(s, e))
  {
    ExitKeepsRows(s, e);
    ExitKeepsKeys(s, e);
    ExitKeepsScans(s, e);
    ExitKeepsCoverage(s, e);
    ExitKeepsKnown(s, e);
    ExitKeepsContents(s, e);
    ExitKeepsDrops(s, e);
  }

  lemma TickKeepsSound(s: State, e: Event)
    requires Sound(s) && (e.Tick? || e.Purge?) && Enabled(s, e)
    ensures Sound(Step(s, e))
  {
    KnownGrows(s, Step(s, e));
  }

  /** No step needs the main filter to be right. */
  lemma KeepsSound(s: State, e: Event)
    requires Sound(s) && Enabled(s, e)
    ensures Sound(Step(s, e))
  {
    if OfAdd(e) {
      AddKeepsSound(s, e);
    } else if OfRebuild(e) {
      RebuildKeepsSound(s, e);
    } else if OfExit(e) {
      ExitKeepsSound(s, e);
    } else {
      TickKeepsSound(s, e);
    }
  }

  /** Whatever was in the main filter, and were it missing: a winning finish establishes the
      whole invariant. */
  lemma WinEstablishesInv(s: State, e: Event)
    requires Sound(s) && Wins(s, e)
    ensures Enabled(s, e) && Inv(Step(s, e))
  {
    KeepsSound(s, e);
    WinMakesMain(s, e.temp);
  }

  lemma KeepsInv(s: State, e: Event)
    requires Inv(s) && Enabled(s, e)
    ensures Inv(Step(s, e))
  {
    KeepsSound(s, e);
    if OfAdd(e) {
      AddKeepsMain(s, e);
    } else if OfRebuild(e) {
      RebuildKeepsMain(s, e);
    } else if OfExit(e) {
      if Wins(s, e) {
        WinMakesMain(s, e.temp);
      } else {
        OtherExitsKeepMain(s, e);
      }
    } else {
      TickKeepsMain(s, e);
    }
  }

  lemma TickKeepsMain(s: State, e: Event)
    requires Main(s) && (e.Tick? || e.Purge?) && Enabled(s, e)
    ensures Main(Step(s, e))
  {
  }

  // -------------------------------------------------------------- whole runs

  ghost predicate Runs(s: State, es: seq<Event>)
    decreases |es|
  {
    es == [] || (Enabled(s, es[0]) && Runs(Step(s, es[0]), es[1..]))
  }

  ghost function Exec(s: State, es: seq<Event>): State
    requires Runs(s, es)
    decreases |es|
  {
    if es == [] then s else Exec(Step(s, es[0]), es[1..])
  }

  /** Processes start, over whatever earlier ones have left: a main filter, if any, with
      whatever codes, temp keys of rebuilds that came to nothing, perhaps a marker naming one. */
  ghost predicate Start(s: State) {
    && Rows(s)
    && (forall id :: id in s.adders ==>
          !s.adders[id].dropped && (s.adders[id].phase == Added(None) || s.adders[id].phase.AddFailed?))
    && (forall temp :: temp in s.rebuilders ==> temp != MAIN && temp != "" && LeftOver(s, temp))
    && (s.redis.marker.Some? ==> s.redis.marker.value in s.rebuilders)
    && s.redis.filters.Keys <= s.rebuilders.Keys + {MAIN}
  }

  ghost predicate LeftOver(s: State, temp: string)
    requires temp in s.rebuilders
  {
    s.rebuilders[temp] == Rebuilder(1000, {}, s.redis.Filter(temp), Failed) && s.redis.Filter(temp) <= KnownCodes(s)
  }

  /** A start at which the main filter has the codes of the active rows that were added. */
  ghost predicate Init(s: State) {
    Start(s) && Main(s)
  }

  lemma {:induction false} SoundHolds(s: State, es: seq<Event>)
    requires Sound(s) && Runs(s, es)
    ensures Sound(Exec(s, es))
    decreases |es|
  {
    if es != [] {
      KeepsSound(s, es[0]);
      SoundHolds(Step(s, es[0]), es[1..]);
    }
  }

  lemma {:induction false} InvHolds(s: State, es: seq<Event>)
    requires Inv(s) && Runs(s, es)
    ensures Inv(Exec(s, es))
    decreases |es|
  {
    if es != [] {
      KeepsInv(s, es[0]);
      InvHolds(Step(s, es[0]), es[1..]);
    }
  }

  lemma {:induction false} Split(s: State, es: seq<Event>, fs: seq<Event>)
    ensures Runs(s, es + fs) <==> Runs(s, es) && Runs(Exec(s, es), fs)
    ensures Runs(s, es + fs) ==> Exec(s, es + fs) == Exec(Exec(s, es), fs)
    decreases |es|
  {
    if es == [] {
      assert es + fs == fs;
    } else {
      assert (es + fs)[1..] == es[1..] + fs;
      if Enabled(s, es[0]) {
        Split(Step(s, es[0]), es[1..], fs);
      }
    }
  }

  /** The state in which event k of a run finds the system. */
  ghost function Before(s: State, es: seq<Event>, k: nat): State
    requires Runs(s, es) && k <= |es|
    decreases k
  {
    if k == 0 then s else Before(Step(s, es[0]), es[1..], k - 1)
  }

  /** A finish of `temp` that wins in state `s`, with this Add between its two BF.ADDs and its
      row in none of the pages the rebuild added. */
  ghost predicate Straddles(s: State, e: Event, id: uint64) {
    && Wins(s, e)
    && id in s.adders && s.adders[id].phase == MainAdded(e.temp)
    && s.adders[id].row.code !in s.rebuilders[e.temp].handed
  }

  /** A winning finish of a rebuild whose pages contained the row. */
  ghost predicate Restores(s: State, e: Event, id: uint64) {
    && Wins(s, e)
    && id in s.adders && s.adders[id].row.code in s.rebuilders[e.temp].handed
  }

  ghost predicate NoneRestores(s: State, es: seq<Event>, from: nat, id: uint64)
    requires Runs(s, es)
  {
    forall j :: from <= j < |es| ==> !Restores(Before(s, es, j), es[j], id)
  }

  /** The run lost this code: some finish straddled its Add, and none restored it since. */
  ghost predicate Lost(s: State, es: seq<Event>, id: uint64)
    requires Runs(s, es)
  {
    exists k :: 0 <= k < |es| && Straddles(Before(s, es, k), es[k], id) && NoneRestores(s, es, k + 1, id)
  }

  predicate Dropped(s: State, id: uint64) {
    id in s.adders && s.adders[id].dropped
  }

  lemma StepDrops(s: State, e: Event, id: uint64)
    requires Enabled(s, e)
    ensures Dropped(Step(s, e), id) <==> Straddles(s, e, id) || (Dropped(s, id) && !Restores(s, e, id))
  {
  }

  lemma NoneRestoresFromNext(s: State, es: seq<Event>, from: nat, id: uint64)
    requires Runs(s, es) && es != []
    ensures NoneRestores(s, es, from + 1, id) <==> NoneRestores(Step(s, es[0]), es[1..], from, id)
  {
    var s' := Step(s, es[0]);
    forall j: nat | j + 1 < |es|
      ensures Before(s, es, j + 1) == Before(s', es[1..], j) && es[j + 1] == es[1..][j]
    {
    }
    if NoneRestores(s, es, from + 1, id) {
      forall j | from <= j < |es[1..]|
        ensures !Restores(Before(s', es[1..], j), es[1..][j], id)
      {
        assert !Restores(Before(s, es, j + 1), es[j + 1], id);
      }
    }
  }

  lemma LostThenNext(s: State, es: seq<Event>, id: uint64)
    requires Runs(s, es) && es != [] && Lost(s, es, id)
    ensures (Straddles(s, es[0], id) && NoneRestores(s, es, 1, id)) || Lost(Step(s, es[0]), es[1..], id)
  {
    var s', rest := Step(s, es[0]), es[1..];
    var k :| 0 <= k < |es| && Straddles(Before(s, es, k), es[k], id) && NoneRestores(s, es, k + 1, id);
    if k > 0 {
      NoneRestoresFromNext(s, es, k, id);
      assert Straddles(Before(s', rest, k - 1), rest[k - 1], id);
    }
  }

  lemma NextThenLost(s: State, es: seq<Event>, id: uint64)
    requires Runs(s, es) && es != [] && Lost(Step(s, es[0]), es[1..], id)
    ensures Lost(s, es, id)
  {
    var s', rest := Step(s, es[0]), es[1..];
    var k :| 0 <= k < |rest| && Straddles(Before(s', rest, k), rest[k], id) && NoneRestores(s', rest, k + 1, id);
    NoneRestoresFromNext(s, es, k + 1, id);
    assert Straddles(Before(s, es, k + 1), es[k + 1], id);
  }

  lemma LostFromNext(s: State, es: seq<Event>, id: uint64)
    requires Runs(s, es) && es != []
    ensures Lost(s, es, id) <==>
              (Straddles(s, es[0], id) && NoneRestores(s, es, 1, id)) || Lost(Step(s, es[0]), es[1..], id)
  {
    if Lost(s, es, id) {
      LostThenNext(s, es, id);
    }
    if Lost(Step(s, es[0]), es[1..], id) {
      NextThenLost(s, es, id);
    }
    if Straddles(s, es[0], id) && NoneRestores(s, es, 1, id) {
      assert Straddles(Before(s, es, 0), es[0], id);
    }
  }

  /** A run leaves an Add dropped if and only if it lost the code, or found it dropped and
      never restored it. */
  lemma {:induction false} DroppedExactlyWhen(s: State, es: seq<Event>, id: uint64)
    requires Runs(s, es)
    ensures Dropped(Exec(s, es), id) <==> Lost(s, es, id) || (Dropped(s, id) && NoneRestores(s, es, 0, id))
    decreases |es|
  {
    if es != [] {
      StepDrops(s, es[0], id);
      DroppedExactlyWhen(Step(s, es[0]), es[1..], id);
      LostFromNext(s, es, id);
      NoneRestoresFromNext(s, es, 0, id);
      assert NoneRestores(s, es, 0, id) <==> !Restores(s, es[0], id) && NoneRestores(s, es, 1, id) by {
        assert Before(s, es, 0) == s;
      }
    }
  }

  lemma {:induction false} InvHoldsFromWin(s: State, es: seq<Event>, k: nat)
    requires Sound(s) && Runs(s, es) && k < |es| && Wins(Before(s, es, k), es[k])
    ensures Inv(Exec(s, es))
    decreases k
  {
    if k == 0 {
      WinEstablishesInv(s, es[0]);
      InvHolds(Step(s, es[0]), es[1..]);
    } else {
      KeepsSound(s, es[0]);
      InvHoldsFromWin(Step(s, es[0]), es[1..], k - 1);
    }
  }

  ghost predicate SomeWin(s: State, es: seq<Event>)
    requires Runs(s, es)
  {
    exists k :: 0 <= k < |es| && Wins(Before(s, es, k), es[k])
  }

  lemma StartIsSound(s: State)
    requires Start(s)
    ensures Sound(s)
  {
    forall temp | temp in s.rebuilders
      ensures ScanOk(s, temp, s.rebuilders[temp]) && !Live(s, temp)
    {
      assert LeftOver(s, temp);
    }
    LeftOversAreKnown(s);
  }

  lemma LeftOversAreKnown(s: State)
    requires Start(s)
    ensures Known(s) && Contents(s)
  {
    forall temp | temp in s.rebuilders
      ensures s.rebuilders[temp].handed == s.redis.Filter(temp) && s.redis.Filter(temp) <= KnownCodes(s)
      ensures s.rebuilders[temp].phase.Failed?
    {
      assert LeftOver(s, temp);
    }
  }

  lemma InvHoldsAtLast(s: State, es: seq<Event>)
    requires Start(s) && Runs(s, es) && (Main(s) || SomeWin(s, es))
    ensures Inv(Exec(s, es))
  {
    StartIsSound(s);
    if Main(s) {
      InvHolds(s, es);
    } else {
      var k :| 0 <= k < |es| && Wins(Before(s, es, k), es[k]);
      InvHoldsFromWin(s, es, k);
    }
  }

  /** In every state reached from a start with a right main filter, and from any start whatever
      once a rebuild has won: the main filter lacks the code of an active row whose Add has
      returned success if and only if the run lost it.  That is, a rebuild won while the Add
      was between its two BF.ADDs and had not read the row, and no winner since has. */
  lemma AddedCodesAreFound(s: State, es: seq<Event>, r: ShortLink)
    requires Start(s) && Runs(s, es) && (Main(s) || SomeWin(s, es))
    requires var t := Exec(s, es); r in t.table && r.IsActive(t.clock) && r.id in t.adders && t.adders[r.id].phase.Added?
    ensures r.code in Exec(s, es).redis.Filter(MAIN) <==> !Lost(s, es, r.id)
  {
    InvHoldsAtLast(s, es);
    DroppedExactlyWhen(s, es, r.id);
  }

  lemma {:induction false} BaseStays(s: State, es: seq<Event>, temp: string)
    requires Runs(s, es) && temp in s.rebuilders
    ensures temp in Exec(s, es).rebuilders && Exec(s, es).rebuilders[temp].base == s.rebuilders[temp].base
    decreases |es|
  {
    if es != [] {
      BaseStays(Step(s, es[0]), es[1..], temp);
    }
  }

  /** From `s`, a rebuild writes its marker; `run` follows; then its finish wins. */
  ghost predicate IsWin(s: State, mark: Event, run: seq<Event>) {
    && Sound(s) && mark.SetMarker? && Enabled(s, mark) && Runs(Step(s, mark), run)
    && var t := Exec(Step(s, mark), run);
       Wins(t, Finish(mark.temp))
  }

  lemma WinCoversBase(t: State, temp: string, r: ShortLink)
    requires Sound(t) && Enabled(t, Finish(temp)) && t.redis.Swaps(temp)
    requires r in t.table && r.IsActive(t.clock) && r.id in t.rebuilders[temp].base
    ensures r.code in Step(t, Finish(temp)).redis.Filter(MAIN)
  {
    assert Live(t, temp);
    assert !Ahead(t.rebuilders[temp].phase, t.rebuilders[temp].batch, r);
    assert Win(t, temp).redis.Filter(MAIN) == t.redis.Filter(temp);
  }

  /** Healing, whatever the main filter held and whatever ran in between: a winning finish
      leaves in it every active row that was committed before the rebuild wrote its marker. */
  lemma WinningRebuildHeals(s: State, mark: Event, run: seq<Event>, r: ShortLink)
    requires IsWin(s, mark, run) && r.id in s.adders
    requires var t := Exec(Step(s, mark), run); r in t.table && r.IsActive(t.clock)
    ensures r.code in Step(Exec(Step(s, mark), run), Finish(mark.temp)).redis.Filter(MAIN)
  {
    var m := Step(s, mark);
    KeepsSound(s, mark);
    SoundHolds(m, run);
    BaseStays(m, run, mark.temp);
    WinCoversBase(Exec(m, run), mark.temp, r);
  }

  /** This rebuild can no longer win. */
  ghost predicate Beaten(s: State, temp: string) {
    temp in s.rebuilders && !Live(s, temp)
  }

  lemma StaysBeaten(s: State, e: Event, temp: string)
    requires Sound(s) && Enabled(s, e) && Beaten(s, temp)
    ensures Beaten(Step(s, e), temp)
  {
  }

  /** Once the marker has moved on or an error has occurred, a rebuild never replaces the
      main filter: if it comes to its finish at all, the script changes nothing. */
  lemma {:induction false} BeatenNeverWins(s: State, es: seq<Event>, temp: string)
    requires Sound(s) && Beaten(s, temp) && Runs(s, es)
    ensures var t := Exec(s, es);
            && Beaten(t, temp)
            && (Enabled(t, Finish(temp)) ==> Step(t, Finish(temp)).redis == t.redis)
    decreases |es|
  {
    if es != [] {
      KeepsSound(s, es[0]);
      StaysBeaten(s, es[0], temp);
      BeatenNeverWins(Step(s, es[0]), es[1..], temp);
    }
  }

  /** Events after which some rebuild's marker no longer stands. */
  ghost predicate MovesMarker(s: State, e: Event) {
    e.SetMarker? || (e.DelMarker? && e.ok) || (e.Finish? && s.redis.Swaps(e.temp))
  }

  lemma LiveUntilWin(t: State, run: seq<Event>, temp: string)
    requires Sound(t) && Runs(t, run) && temp in t.rebuilders
    requires Enabled(Exec(t, run), Finish(temp)) && Exec(t, run).redis.Swaps(temp)
    ensures Live(t, temp)
  {
    if !Live(t, temp) {
      SoundHolds(t, run);
      BeatenNeverWins(t, run, temp);
      assert false;
    }
  }

  lemma WinnerNotDisturbed(t: State, run: seq<Event>, temp: string)
    requires Sound(t) && Runs(t, run) && temp in t.rebuilders
    requires Enabled(Exec(t, run), Finish(temp)) && Exec(t, run).redis.Swaps(temp)
    ensures t.redis.marker == Some(temp)
    ensures run != [] ==> Enabled(t, run[0]) && !MovesMarker(t, run[0])
  {
    LiveUntilWin(t, run, temp);
    if run != [] {
      KeepsSound(t, run[0]);
      LiveUntilWin(Step(t, run[0]), run[1..], temp);
    }
  }

  /** If a rebuild wins, the marker held its temp key all the time from its SET on, and no
      other rebuild wrote or deleted the marker or won in that time. */
  lemma WinnerHeldMarker(s: State, mark: Event, run: seq<Event>, k: nat)
    requires IsWin(s, mark, run) && k <= |run|
    ensures Runs(Step(s, mark), run[..k])
    ensures var t := Exec(Step(s, mark), run[..k]);
            && t.redis.marker == Some(mark.temp)
            && (k < |run| ==> Enabled(t, run[k]) && !MovesMarker(t, run[k]))
  {
    var m, temp := Step(s, mark), mark.temp;
    KeepsSound(s, mark);
    assert run == run[..k] + run[k..];
    Split(m, run[..k], run[k..]);
    SoundHolds(m, run[..k]);
    BaseStays(m, run[..k], temp);
    WinnerNotDisturbed(Exec(m, run[..k]), run[k..], temp);
  }

  predicate IsError(e: Event) {
    e.ReserveError? || e.ScanError? || e.FinishError?
  }

  /** The temp key an event of a rebuild belongs to. */
  function RebuildOf(e: Event): Option<string> {
    if OfRebuild(e) || OfExit(e) then Some(e.temp) else None
  }

  // ------------------------------------------------------ rebuilds get there

  const IDS: nat := 0x1_0000_0000_0000_0000

  predicate OwnStep(e: Event, temp: string) {
    RebuildOf(e) == Some(temp) && !IsError(e)
  }

  function OwnSteps(es: seq<Event>, temp: string): nat {
    if es == [] then 0 else OwnSteps(es[1..], temp) + if OwnStep(es[0], temp) then 1 else 0
  }

  /** More than the steps left in a scan, given the shard and the last id read. */
  function ScanLeft(shard: nat, lastID: nat): nat {
    if shard >= SHARD_COUNT || lastID >= IDS then 2 else (SHARD_COUNT - shard) * 2 * IDS + 2 * (IDS - lastID)
  }

  /** A bound on the steps a rebuild in progress has left. */
  function StepsLeft(p: RebuildPhase): nat {
    match p
    case Marked => ScanLeft(0, 0) + 2
    case Reserved => ScanLeft(0, 0) + 1
    case Scanning(_, shard, lastID) => ScanLeft(shard, lastID)
    case PageRead(_, shard, page) => if page == [] then ScanLeft(shard, IDS - 1) else ScanLeft(shard, page[|page| - 1].id) + 1
    case Scanned => 1
    case _ => 0
  }

  lemma NextShardIsLess(now: Time, shard: nat, lastID: nat)
    requires shard < SHARD_COUNT && lastID < IDS
    ensures StepsLeft(NextShard(now, shard)) < ScanLeft(shard, lastID)
  {
  }

  lemma NextPageIsLess(shard: nat, lastID: nat, id: nat)
    requires shard < SHARD_COUNT && lastID < id < IDS
    ensures ScanLeft(shard, id) + 1 < ScanLeft(shard, lastID)
  {
  }

  lemma ReadPageAdvances(s: State, temp: string, page: seq<ShortLink>)
    requires Scans(s) && RebuildEnabled(s, ReadPage(temp, page))
    ensures StepsLeft(RebuildStep(s, ReadPage(temp, page)).rebuilders[temp].phase) < StepsLeft(s.rebuilders[temp].phase)
  {
    var p := s.rebuilders[temp].phase;
    if page != [] {
      var last := page[|page| - 1];
      assert last in ActiveAfter(s.table, p.shard, p.lastID, p.now);
      NextPageIsLess(p.shard, p.lastID, last.id);
    } else {
      NextShardIsLess(p.now, p.shard, p.lastID);
    }
  }

  lemma OwnStepAdvances(s: State, e: Event, temp: string)
    requires Scans(s) && Enabled(s, e) && Live(s, temp) && OwnStep(e, temp)
    ensures StepsLeft(Step(s, e).rebuilders[temp].phase) < StepsLeft(s.rebuilders[temp].phase)
  {
    var p := s.rebuilders[temp].phase;
    if e.ReadPage? {
      ReadPageAdvances(s, temp, e.page);
    } else if e.AddPage? {
      assert ScanOk(s, temp, s.rebuilders[temp]);
      NextShardIsLess(p.now, p.shard, if p.page == [] then IDS - 1 else p.page[|p.page| - 1].id);
    }
  }

  /** A rebuild in progress is never stuck. */
  lemma NeverStuck(s: State, temp: string) returns (e: Event)
    requires Sound(s) && temp in s.rebuilders && InProgress(s.rebuilders[temp].phase)
    ensures OwnStep(e, temp) && Enabled(s, e)
  {
    match s.rebuilders[temp].phase
    case Marked => e := Reserve(temp);
    case Reserved => e := StartScan(temp);
    case Scanning(now, shard, lastID) =>
      var page := PageExists(ActiveAfter(s.table, shard, lastID, now), ById, s.rebuilders[temp].batch);
      e := ReadPage(temp, page);
    case PageRead(_, _, _) => e := AddPage(temp);
    case Scanned => e := Finish(temp);
  }

  /** The rebuild will win, or has won. */
  ghost predicate OnCourse(s: State, temp: string) {
    Live(s, temp) || (temp in s.rebuilders && s.rebuilders[temp].phase == Won)
  }

  lemma OwnStepKeepsCourse(s: State, e: Event, temp: string)
    requires Scans(s) && Enabled(s, e) && Live(s, temp) && OwnStep(e, temp)
    ensures OnCourse(Step(s, e), temp)
  {
    assert ScanOk(s, temp, s.rebuilders[temp]);
  }

  lemma OthersKeepCourse(s: State, e: Event, temp: string)
    requires Enabled(s, e) && OnCourse(s, temp) && RebuildOf(e).None?
    ensures OnCourse(Step(s, e), temp) && Step(s, e).rebuilders == s.rebuilders
  {
  }

  lemma UndisturbedStep(s: State, e: Event, temp: string)
    requires Sound(s) && Enabled(s, e) && OnCourse(s, temp)
    requires RebuildOf(e).Some? ==> e.temp == temp && !IsError(e)
    ensures OnCourse(Step(s, e), temp)
    ensures StepsLeft(Step(s, e).rebuilders[temp].phase) + (if OwnStep(e, temp) then 1 else 0) <=
              StepsLeft(s.rebuilders[temp].phase)
  {
    if OwnStep(e, temp) {
      OwnStepAdvances(s, e, temp);
      OwnStepKeepsCourse(s, e, temp);
    } else {
      OthersKeepCourse(s, e, temp);
    }
  }

  lemma {:induction false} StepsRunOut(s: State, es: seq<Event>, temp: string)
    requires Sound(s) && Runs(s, es) && OnCourse(s, temp)
    requires forall e :: e in es && RebuildOf(e).Some? ==> e.temp == temp && !IsError(e)
    ensures OnCourse(Exec(s, es), temp)
    ensures OwnSteps(es, temp) + StepsLeft(Exec(s, es).rebuilders[temp].phase) <= StepsLeft(s.rebuilders[temp].phase)
    decreases |es|
  {
    if es != [] {
      assert es[0] in es;
      KeepsSound(s, es[0]);
      UndisturbedStep(s, es[0], temp);
      StepsRunOut(Step(s, es[0]), es[1..], temp);
    }
  }

  /** From any state in which it can still win, a rebuild's own steps lead it there. */
  lemma {:induction false} WinsByItself(s: State, temp: string) returns (es: seq<Event>)
    requires Sound(s) && OnCourse(s, temp)
    ensures Runs(s, es) && forall e :: e in es ==> OwnStep(e, temp)
    ensures temp in Exec(s, es).rebuilders && Exec(s, es).rebuilders[temp].phase == Won
    decreases StepsLeft(s.rebuilders[temp].phase)
  {
    es := [];
    if s.rebuilders[temp].phase != Won {
      var e := NeverStuck(s, temp);
      KeepsSound(s, e);
      UndisturbedStep(s, e, temp);
      es := WinsByItself(Step(s, e), temp);
      es := [e] + es;
    }
  }

  /** A rebuild that overlaps no other and meets no error, however many Adds, commits and
      deletions run beside it: its own steps are bounded, and at any time those that are left
      bring it to win. */
  lemma UndisturbedRebuildWins(s: State, mark: Event, es: seq<Event>) returns (rest: seq<Event>)
    requires Sound(s) && mark.SetMarker? && Runs(s, [mark] + es)
    requires forall e :: e in es && RebuildOf(e).Some? ==> e.temp == mark.temp && !IsError(e)
    ensures OwnSteps(es, mark.temp) <= StepsLeft(Marked)
    ensures Runs(Exec(s, [mark] + es), rest) && forall e :: e in rest ==> OwnStep(e, mark.temp)
    ensures var t := Exec(Exec(s, [mark] + es), rest);
            mark.temp in t.rebuilders && t.rebuilders[mark.temp].phase == Won
  {
    assert ([mark] + es)[1..] == es;
    var m := Step(s, mark);
    KeepsSound(s, mark);
    StepsRunOut(m, es, mark.temp);
    SoundHolds(m, es);
    rest := WinsByItself(Exec(m, es), mark.temp);
  }

  // ----------------------------------------------------- rebuilds clean up

  predicate HasReturned(p: RebuildPhase) {
    p.Won? || p.Overtaken? || p.Failed?
  }

  /** The errors after which a rebuild returns with its marker standing: the deletion of the
      marker fails, or the finish script does. */
  predicate LeavesMarker(e: Event, temp: string) {
    e == DelMarker(temp, false) || e == FinishError(temp)
  }

  ghost predicate MarkerLeft(s: State, temp: string) {
    s.redis.marker == Some(temp) && temp in s.rebuilders && HasReturned(s.rebuilders[temp].phase)
  }

  lemma OthersLeaveNoMarker(s: State, e: Event, temp: string)
    requires Keys(s) && Enabled(s, e) && !OfExit(e) && MarkerLeft(Step(s, e), temp)
    ensures MarkerLeft(s, temp)
  {
  }

  lemma MarkerLeftByError(s: State, e: Event, temp: string)
    requires Sound(s) && Enabled(s, e) && MarkerLeft(Step(s, e), temp)
    ensures MarkerLeft(s, temp) || LeavesMarker(e, temp)
  {
    if !OfExit(e) {
      OthersLeaveNoMarker(s, e, temp);
    } else if e.Finish? {
      FinishLeavesNoMarker(s, e.temp, temp);
    } else {
      DeletionsLeaveMarker(s, e, temp);
    }
  }

  lemma DeletionsLeaveMarker(s: State, e: Event, temp: string)
    requires OfExit(e) && !e.Finish? && ExitEnabled(s, e) && MarkerLeft(ExitStep(s, e), temp)
    ensures MarkerLeft(s, temp) || LeavesMarker(e, temp)
  {
  }

  lemma FinishLeavesNoMarker(s: State, finished: string, temp: string)
    requires Scans(s) && ExitEnabled(s, Finish(finished)) && MarkerLeft(ExitStep(s, Finish(finished)), temp)
    ensures MarkerLeft(s, temp)
  {
    assert ScanOk(s, finished, s.rebuilders[finished]);
  }

  /** A marker that still names a rebuild which has returned was there at the start, or that
      very rebuild met one of the two errors. */
  lemma {:induction false} StaleMarkerHadAnError(s: State, es: seq<Event>, temp: string) returns (k: nat)
    requires Sound(s) && Runs(s, es) && !MarkerLeft(s, temp) && MarkerLeft(Exec(s, es), temp)
    ensures k < |es| && LeavesMarker(es[k], temp)
    decreases |es|
  {
    KeepsSound(s, es[0]);
    if MarkerLeft(Step(s, es[0]), temp) {
      MarkerLeftByError(s, es[0], temp);
      k := 0;
    } else {
      k := StaleMarkerHadAnError(Step(s, es[0]), es[1..], temp);
      k := k + 1;
    }
  }

  /** From a start without a marker, and if neither the deletion of a marker nor a finish script
      fails: once all rebuilds have returned there is no marker, and no Add writes a second key. */
  lemma NoMarkerIsLeft(s: State, es: seq<Event>)
    requires Start(s) && s.redis.marker == None && Runs(s, es)
    requires forall k :: 0 <= k < |es| ==> !(es[k].DelMarker? && !es[k].ok) && !es[k].FinishError?
    requires forall temp :: temp in Exec(s, es).rebuilders ==> HasReturned(Exec(s, es).rebuilders[temp].phase)
    ensures Exec(s, es).redis.marker == None
  {
    StartIsSound(s);
    SoundHolds(s, es);
    var marker := Exec(s, es).redis.marker;
    if marker.Some? {
      var k := StaleMarkerHadAnError(s, es, marker.value);
      assert false;
    }
  }

  /** The rebuild has met an error, and has not returned. */
  predicate CleaningUp(p: RebuildPhase) {
    p.Undoing? || p.Unmarking?
  }

  /** From an error on, what a rebuild still does: after a failed scan, DEL of the temp key and
      then of the marker; after a failed reservation, of the marker. */
  function CleanUp(p: RebuildPhase, temp: string): seq<Event> {
    match p
    case Undoing => [DelTemp(temp, true), DelMarker(temp, true)]
    case Unmarking => [DelMarker(temp, true)]
    case _ => []
  }

  lemma CleansUp(s: State, temp: string)
    requires temp in s.rebuilders && CleaningUp(s.rebuilders[temp].phase)
    ensures Runs(s, CleanUp(s.rebuilders[temp].phase, temp))
    ensures var p, t := s.rebuilders[temp].phase, Exec(s, CleanUp(s.rebuilders[temp].phase, temp));
            && t == SetRebuild(s.(redis := t.redis), temp, Failed)
            && t.redis.marker == None
            && t.redis.filters == if p.Undoing? then s.redis.filters - {temp} else s.redis.filters
  {
    var es := CleanUp(s.rebuilders[temp].phase, temp);
    var s' := Step(s, es[0]);
    assert es[1..] == if |es| == 1 then [] else [DelMarker(temp, true)];
    if |es| == 2 {
      assert es[1..][1..] == [];
      assert Exec(s', es[1..]) == Step(s', DelMarker(temp, true));
    }
  }

  /** Any error of a reservation or a scan, at any time: if the deletions succeed, the rebuild's
      own steps end in failure with the marker gone and no temp key of a begun scan. */
  lemma ErrorCleansUp(s: State, temp: string, e: Event) returns (es: seq<Event>)
    requires temp in s.rebuilders
    requires (e == ScanError(temp) && InScan(s.rebuilders[temp].phase)) || (e == ReserveError(temp) && s.rebuilders[temp].phase.Marked?)
    ensures es == [e] + (if e.ScanError? then [DelTemp(temp, true), DelMarker(temp, true)] else [DelMarker(temp, true)])
    ensures Runs(s, es)
    ensures var t := Exec(s, es);
            && temp in t.rebuilders && t.rebuilders[temp].phase == Failed
            && t.redis == Redis(None, if e.ScanError? then s.redis.filters - {temp} else s.redis.filters)
  {
    var s' := Step(s, e);
    CleansUp(s', temp);
    es := [e] + CleanUp(s'.rebuilders[temp].phase, temp);
  }

  /** A run that leaves a marker behind although every rebuild has returned: the scan was
      complete, and the finish script failed; or a page could not be read, and then the marker
      not be deleted. */
  lemma MarkerCanBeLeft(inFinish: bool) returns (s: State, es: seq<Event>, temp: string)
    ensures Start(s) && s.redis.marker == None && Runs(s, es)
    ensures var t := Exec(s, es);
            MarkerLeft(t, temp) && t.rebuilders.Keys == {temp} && t.rebuilders[temp].phase.Failed?
  {
    s := State(0, {}, Redis(None, map[]), map[], map[]);
    temp := "t";
    es := ScanBegun(s, temp);
    var t := Exec(s, es);
    if inFinish {
      var scan := EmptyScan(t, temp, 0);
      Split(s, es, scan);
      es := es + scan;
      Append(s, es, FinishError(temp));
      es := es + [FinishError(temp)];
    } else {
      var fs := ScanFails(t, temp);
      Split(s, es, fs);
      es := es + fs;
    }
  }

  lemma ScanBegun(s: State, temp: string) returns (es: seq<Event>)
    requires s == State(0, {}, Redis(None, map[]), map[], map[]) && temp != MAIN && temp != ""
    ensures Runs(s, es) && forall e :: e in es ==> !e.Purge?
    ensures Exec(s, es) == s.(redis := Redis(Some(temp), map[temp := {}]),
                              rebuilders := map[temp := Rebuilder(1, {}, {}, Scanning(0, 0, 0))])
  {
    es := [];
    Append(s, es, SetMarker(temp, 1));
    es := es + [SetMarker(temp, 1)];
    Append(s, es, Reserve(temp));
    es := es + [Reserve(temp)];
    Append(s, es, StartScan(temp));
    es := es + [StartScan(temp)];
    var t := Exec(s, es);
    assert s.adders.Keys == {} && t.redis.filters == map[temp := {}];
    assert t.rebuilders == map[temp := Rebuilder(1, {}, {}, Scanning(0, 0, 0))];
  }

  lemma ScanFails(s: State, temp: string) returns (es: seq<Event>)
    requires s.rebuilders.Keys == {temp} && InScan(s.rebuilders[temp].phase) && s.redis.marker == Some(temp)
    ensures Runs(s, es) && MarkerLeft(Exec(s, es), temp)
    ensures Exec(s, es).rebuilders.Keys == {temp} && Exec(s, es).rebuilders[temp].phase.Failed?
  {
    es := [];
    Append(s, es, ScanError(temp));
    es := es + [ScanError(temp)];
    Append(s, es, DelTemp(temp, true));
    es := es + [DelTemp(temp, true)];
    Append(s, es, DelMarker(temp, false));
    es := es + [DelMarker(temp, false)];
  }

  /** An Add that has not returned may fail at any point, and leaves the server as it is then. */
  lemma AddMayFail(s: State, id: uint64)
    requires id in s.adders && !s.adders[id].phase.Added? && !s.adders[id].phase.AddFailed?
    ensures Enabled(s, AddError(id)) && Step(s, AddError(id)).redis == s.redis && Step(s, AddError(id)).table == s.table
    ensures Step(s, AddError(id)).adders == s.adders[id := s.adders[id].(phase := AddFailed)]
  {
  }

  predicate IsDelTemp(e: Event, temp: string) {
    e.DelTemp? && e.temp == temp
  }

  predicate IsDelMarker(e: Event, temp: string) {
    e.DelMarker? && e.temp == temp
  }

  /** Where the deletions of a rebuild are in a run, by the phase it starts in. */
  ghost predicate Deletes(p: RebuildPhase, es: seq<Event>, temp: string) {
    && (exists j :: 0 <= j < |es| && IsDelMarker(es[j], temp))
    && (InScan(p) || p.Undoing? ==> exists i, j :: 0 <= i < j < |es| && IsDelTemp(es[i], temp) && IsDelMarker(es[j], temp))
  }

  lemma DeletesLater(p: RebuildPhase, q: RebuildPhase, es: seq<Event>, temp: string)
    requires es != [] && Deletes(q, es[1..], temp)
    requires InScan(p) || p.Undoing? ==> InScan(q) || q.Undoing? || (p.Undoing? && IsDelTemp(es[0], temp))
    ensures Deletes(p, es, temp)
  {
    var j :| 0 <= j < |es[1..]| && IsDelMarker(es[1..][j], temp);
    assert IsDelMarker(es[j + 1], temp);
    if InScan(q) || q.Undoing? {
      var i, k :| 0 <= i < k < |es[1..]| && IsDelTemp(es[1..][i], temp) && IsDelMarker(es[1..][k], temp);
      assert IsDelTemp(es[i + 1], temp) && IsDelMarker(es[k + 1], temp);
    }
  }

  predicate MayStillFail(p: RebuildPhase) {
    p.Marked? || InScan(p) || CleaningUp(p)
  }

  lemma NextPhase(s: State, e: Event, temp: string)
    requires Enabled(s, e) && temp in s.rebuilders
    ensures temp in Step(s, e).rebuilders
    ensures var p, q := s.rebuilders[temp].phase, Step(s, e).rebuilders[temp].phase;
            && (HasReturned(p) ==> q == p)
            && (p.Scanned? ==> q.Scanned? || q.Won? || q.Overtaken? || e == FinishError(temp))
            && (p.Marked? ==> q.Marked? || q.Reserved? || q.Unmarking?)
            && (InScan(p) ==> InScan(q) || q.Scanned? || q.Undoing?)
            && (p.Undoing? ==> q.Undoing? || (q.Unmarking? && IsDelTemp(e, temp)))
            && (p.Unmarking? ==> q.Unmarking? || (q.Failed? && IsDelMarker(e, temp)))
  {
  }

  lemma {:induction false} ScannedFailsInFinish(s: State, es: seq<Event>, temp: string)
    requires Runs(s, es) && temp in s.rebuilders && (s.rebuilders[temp].phase.Scanned? || s.rebuilders[temp].phase.Won? || s.rebuilders[temp].phase.Overtaken?)
    requires FinishError(temp) !in es
    ensures temp in Exec(s, es).rebuilders && !Exec(s, es).rebuilders[temp].phase.Failed?
    decreases |es|
  {
    if es != [] {
      assert es[0] in es;
      NextPhase(s, es[0], temp);
      ScannedFailsInFinish(Step(s, es[0]), es[1..], temp);
    }
  }

  /** No rebuild fails in its reservation or its scan without having sent its deletions, in the
      program's order, whatever else runs. */
  lemma {:induction false} FailureSendsDeletions(s: State, es: seq<Event>, temp: string)
    requires Runs(s, es) && temp in s.rebuilders && MayStillFail(s.rebuilders[temp].phase)
    requires FinishError(temp) !in es
    requires temp in Exec(s, es).rebuilders && Exec(s, es).rebuilders[temp].phase.Failed?
    ensures Deletes(s.rebuilders[temp].phase, es, temp)
    decreases |es|
  {
    var s' := Step(s, es[0]);
    var p, q := s.rebuilders[temp].phase, s'.rebuilders[temp].phase;
    assert es[0] in es;
    NextPhase(s, es[0], temp);
    if q.Failed? {
      assert IsDelMarker(es[0], temp);
    } else if q.Scanned? {
      ScannedFailsInFinish(s', es[1..], temp);
      assert false;
    } else {
      FailureSendsDeletions(s', es[1..], temp);
      DeletesLater(p, q, es, temp);
    }
  }

  // ------------------------------------------------- the exception is real

  lemma {:induction false} EmptyScan(s: State, temp: string, shard: nat) returns (es: seq<Event>)
    requires temp in s.rebuilders && s.table == {} && shard < SHARD_COUNT
    requires s.rebuilders[temp].phase == Scanning(s.clock, shard, 0)
    ensures Runs(s, es) && Exec(s, es) == SetRebuild(s, temp, Scanned)
    ensures forall e :: e in es ==> e == ReadPage(temp, [])
    decreases SHARD_COUNT - shard
  {
    var read := ReadPage(temp, []);
    var s' := Step(s, read);
    if shard + 1 == SHARD_COUNT {
      es := [read];
      assert es[1..] == [];
    } else {
      es := EmptyScan(s', temp, shard + 1);
      assert SetRebuild(s', temp, Scanned) == SetRebuild(s, temp, Scanned);
      es := [read] + es;
    }
  }

  lemma Append(s: State, es: seq<Event>, e: Event)
    requires Runs(s, es) && Enabled(Exec(s, es), e)
    ensures Runs(s, es + [e]) && Exec(s, es + [e]) == Step(Exec(s, es), e)
  {
    assert [e][1..] == [];
    Split(s, es, [e]);
  }

  /** A run that loses a code: a link is created while a rebuild has finished its scan but not
      its swap, and the swap lands between the Add's two BF.ADDs.  The Add returns success,
      the row is active, and the main filter rejects its code. */
  lemma AddedCodeCanBeLost() returns (s: State, es: seq<Event>, r: ShortLink)
    ensures Init(s) && Runs(s, es) && forall e :: e in es ==> !e.Purge?
    ensures var t := Exec(s, es);
            && r in t.table && r.IsActive(t.clock)
            && r.id in t.adders && t.adders[r.id].phase.Added?
            && r.code !in t.redis.Filter(MAIN)
  {
    s := State(0, {}, Redis(None, map[]), map[], map[]);
    r := ShortLink(1, NewShortCode(1), "https://example.com", "", None, STATUS_ACTIVE, 0, 0);
    var temp := "t";
    es := ScanBegun(s, temp);
    var scan := EmptyScan(Exec(s, es), temp, 0);
    Split(s, es, scan);
    es := es + scan;
    var t := Exec(s, es);
    assert t.redis == Redis(Some(temp), map[temp := {}]) && t.adders == map[] && t.table == {};
    es := LoseCode(s, es, temp, r);
  }

  /** The scan of `temp` is over, the marker names it, and there is no row. */
  ghost predicate AboutToFinish(t: State, temp: string) {
    && t.redis == Redis(Some(temp), map[temp := {}]) && t.adders == map[] && t.table == {}
    && temp in t.rebuilders && t.rebuilders[temp].phase == Scanned
  }

  lemma HalfAdded(s: State, before: seq<Event>, temp: string, r: ShortLink) returns (es: seq<Event>)
    requires Runs(s, before) && temp != MAIN && temp != "" && forall e :: e in before ==> !e.Purge?
    requires r.id != 0 && r.code == NewShortCode(r.id) && AboutToFinish(Exec(s, before), temp)
    ensures Runs(s, es) && forall e :: e in es ==> !e.Purge?
    ensures var t := Exec(s, es);
            && t.table == {r} && t.adders == map[r.id := Adder(r, MainAdded(temp), false)]
            && t.redis.marker == Some(temp) && temp in t.redis.filters && t.redis.Filter(temp) == {}
            && t.clock == Exec(s, before).clock && t.rebuilders == Exec(s, before).rebuilders
  {
    Append(s, before, Commit(r));
    es := before + [Commit(r)];
    Append(s, es, GetMarker(r.id));
    es := es + [GetMarker(r.id)];
    Append(s, es, AddMain(r.id));
    es := es + [AddMain(r.id)];
  }

  lemma LoseCode(s: State, before: seq<Event>, temp: string, r: ShortLink) returns (es: seq<Event>)
    requires Runs(s, before) && temp != MAIN && temp != "" && forall e :: e in before ==> !e.Purge?
    requires r.id != 0 && r.code == NewShortCode(r.id) && AboutToFinish(Exec(s, before), temp)
    ensures Runs(s, es) && forall e :: e in es ==> !e.Purge?
    ensures var t := Exec(s, es);
            && r in t.table && t.clock == Exec(s, before).clock
            && r.id in t.adders && t.adders[r.id].phase.Added?
            && r.code !in t.redis.Filter(MAIN)
  {
    es := HalfAdded(s, before, temp, r);
    Append(s, es, Finish(temp));
    es := es + [Finish(temp)];
    Append(s, es, AddTemp(r.id));
    es := es + [AddTemp(r.id)];
  }
}
