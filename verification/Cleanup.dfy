/** The periodic cleanup (internal/app/cleanupapp/service.go), with the statements of
    internal/infrastructure/mysql/visit_repository.go it repeats. */
module Cleanup {
  import opened Links
  import opened Tables
  import opened Repository
  import opened RedisBloom
  import RemoteCache

  /** visit_log or link_stat_daily: row ids and the times retention goes by. */
  class LogTable {
    var rows: map<nat, Time>
    var statements: nat
    const fails: nat -> bool

    constructor (rows: map<nat, Time>, fails: nat -> bool)
      ensures this.rows == rows && statements == 0 && this.fails == fails
    {
      this.rows, this.statements, this.fails := rows, 0, fails;
    }

    function OlderThan(cutoff: Time): set<nat>
      reads this
    {
      set id | id in rows && rows[id] < cutoff
    }

    /** The latest statement has failed. */
    ghost predicate LastFailed()
      reads this
    {
      statements > 0 && fails(statements - 1)
    }

    /** DELETE ... WHERE time < cutoff LIMIT limit: which rows go is the server's choice. */
    method DeleteBefore(cutoff: Time, limit: int) returns (ok: bool, deleted: nat)
      modifies this
      ensures rows.Keys <= old(rows.Keys) && forall id :: id in rows ==> rows[id] == old(rows)[id]
      ensures old(rows.Keys) - rows.Keys <= old(OlderThan(cutoff))
      ensures deleted == |old(rows)| - |rows|
      ensures ok ==> deleted == (var n := if limit <= 0 then 1000 else limit;
                                 if |old(OlderThan(cutoff))| < n then |old(OlderThan(cutoff))| else n)
      ensures !ok ==> deleted == 0 && LastFailed()
    {
      var n: nat := if limit <= 0 then 1000 else limit;
      ok := !fails(statements);
      statements := statements + 1;
      deleted := 0;
      if !ok {
        return;
      }
      while deleted < n && OlderThan(cutoff) != {}
        invariant deleted <= n && rows.Keys <= old(rows.Keys) && forall id :: id in rows ==> rows[id] == old(rows)[id]
        invariant old(rows.Keys) - rows.Keys <= old(OlderThan(cutoff))
        invariant |rows| == |old(rows)| - deleted
        invariant |OlderThan(cutoff)| == |old(OlderThan(cutoff))| - deleted
        decreases n - deleted
      {
        var id :| id in OlderThan(cutoff);
        ghost var older := OlderThan(cutoff);
        assert rows.Keys == (rows.Keys - {id}) + {id};
        rows := rows - {id};
        assert OlderThan(cutoff) == older - {id};
        deleted := deleted + 1;
      }
    }
  }

  /** Repeats the limited deletion until it comes back short.  Success means that exactly the
      rows older than the cutoff are gone, and `total` counts them; after an error `total` is
      still the number of rows removed. */
  method DeleteAll(table: LogTable, cutoff: Time, limit: int) returns (ok: bool, total: nat)
    requires 0 < limit
    modifies table
    ensures table.rows.Keys <= old(table.rows.Keys) && forall id :: id in table.rows ==> table.rows[id] == old(table.rows)[id]
    ensures total == |old(table.rows)| - |table.rows|
    ensures old(table.rows.Keys) - table.rows.Keys <= old(table.OlderThan(cutoff))
    ensures ok ==> table.rows.Keys == old(table.rows.Keys) - old(table.OlderThan(cutoff))
    ensures !ok ==> table.LastFailed()
  {
    total := 0;
    while true
      invariant table.rows.Keys <= old(table.rows.Keys) && forall id :: id in table.rows ==> table.rows[id] == old(table.rows)[id]
      invariant total == |old(table.rows)| - |table.rows|
      invariant old(table.rows.Keys) - table.rows.Keys <= old(table.OlderThan(cutoff))
      decreases |table.rows|
    {
      ghost var was := table.rows;
      ghost var older := table.OlderThan(cutoff);
      assert older == old(table.OlderThan(cutoff)) * was.Keys;
      var deleted;
      ok, deleted := table.DeleteBefore(cutoff, limit);
      total := total + deleted;
      assert old(table.rows.Keys) - table.rows.Keys <= (old(table.rows.Keys) - was.Keys) + (was.Keys - table.rows.Keys);
      if !ok {
        return;
      }
      if deleted < limit {
        ShortAnswerMeansDone(was.Keys, table.rows.Keys, older);
        return;
      }
    }
  }

  lemma ShortAnswerMeansDone(was: set<nat>, now: set<nat>, older: set<nat>)
    requires now <= was && older <= was && was - now <= older && |was| - |now| == |older|
    ensures now == was - older
  {
    var gone := was - now;
    assert |gone| + |now| == |gone + now| && gone + now == was;
    assert |older - gone| + |gone| == |(older - gone) + gone| && (older - gone) + gone == older;
    assert older - gone == {};
  }

  class VisitRepository {
    const log: LogTable
    const daily: LogTable
    const startOfDay: Time -> Time // midnight before an instant, in its location

    constructor (log: LogTable, daily: LogTable, startOfDay: Time -> Time)
      ensures this.log == log && this.daily == daily && this.startOfDay == startOfDay
    {
      this.log, this.daily, this.startOfDay := log, daily, startOfDay;
    }
  }

  datatype Report = Report(expiredLinksDeleted: nat, visitLogsDeleted: nat, dailyStatsDeleted: nat, filterRebuilt: bool)

  /** The table holds exactly the old rows that were not older than the cutoff, and `n` is
      the number that went. */
  ghost predicate Retained(was: map<nat, Time>, rows: map<nat, Time>, cutoff: Time, n: nat) {
    rows == (map id | id in was && was[id] >= cutoff :: was[id]) && n == |was| - |rows|
  }

  /** The step a run ended in. */
  datatype Stage = Links | Visits | Stats | Filter | Finished

  /** Rows the run removed had expired; of those that other sessions keep, the rest remains,
      and alone nothing else has happened. */
  ghost predicate RemovesExpired(db: Database, was: set<ShortLink>, rows: set<ShortLink>, now: Time,
                                 removed: multiset<ShortLink>) {
    && (forall r :: r in removed ==> r.IsExpired(now))
    && Rest(Kept(db, was), removed) <= rows
    && (db.Alone() ==> rows <= was && |removed| == |was| - |rows| && forall r :: r in was - rows ==> r in removed)
  }

  /** No expired row that other sessions keep has been overlooked, and none at all alone. */
  ghost predicate AllRemoved(db: Database, was: set<ShortLink>, rows: set<ShortLink>, now: Time,
                             removed: multiset<ShortLink>) {
    && (forall r :: r in Kept(db, was) && r.IsExpired(now) ==> r in removed)
    && (db.Alone() ==> rows == was - ExpiredRows(was, now))
  }

  /** The filter has the codes of the active rows that other sessions keep; alone, exactly the
      codes of the active rows.  (Ids are positive: Snowflake.IdsStrictlyIncrease.) */
  ghost predicate Covered(db: Database, was: set<ShortLink>, now: Time, filter: set<string>) {
    && (forall r :: r in Kept(db, was) && r.IsActive(now) && r.id != 0 ==> r.code in filter)
    && (db.Alone() && (forall r :: r in was ==> r.id != 0) ==> filter == ActiveCodes(was, now))
  }

  /** What is active after the purge was active before it. */
  lemma CoveredEarlier(db: Database, was: set<ShortLink>, mid: set<ShortLink>, rows: set<ShortLink>, now: Time,
                       scanNow: Time, removed: multiset<ShortLink>, filter: set<string>)
    requires now <= scanNow && RemovesExpired(db, was, mid, now, removed) && AllRemoved(db, was, mid, now, removed)
    requires Covered(db, mid, scanNow, filter)
    ensures Covered(db, was, scanNow, filter)
  {
    if db.Alone() && forall r :: r in was ==> r.id != 0 {
      assert ActiveCodes(was, scanNow) == ActiveCodes(mid, scanNow);
    }
  }

  class Service {
    const links: Database?
    const visits: VisitRepository?
    const cache: RemoteCache.Cache?
    const filter: Bloom?
    const batchSize: int
    const visitRetention: int
    const statRetention: int

    constructor (links: Database?, visits: VisitRepository?, cache: RemoteCache.Cache?, filter: Bloom?,
                 batchSize: int, visitRetention: int, statRetention: int)
      ensures this.links == links && this.visits == visits && this.cache == cache && this.filter == filter
      ensures this.batchSize == (if batchSize <= 0 then 1000 else batchSize) > 0
      ensures this.visitRetention == if visitRetention <= 0 then 2_592_000_000_000_000 else visitRetention // 30 days
      ensures this.statRetention == if statRetention <= 0 then 15_552_000_000_000_000 else statRetention // 180 days
    {
      this.links, this.visits, this.cache, this.filter := links, visits, cache, filter;
      this.batchSize := if batchSize <= 0 then 1000 else batchSize;
      this.visitRetention := if visitRetention <= 0 then 30 * 24 * HOUR else visitRetention;
      this.statRetention := if statRetention <= 0 then 180 * 24 * HOUR else statRetention;
    }

    method ExpireLinks(db: Database, now: Time) returns (ok: bool, deleted: nat, ghost removed: multiset<ShortLink>)
      requires db.Valid() && db.Orderly()
      modifies db, cache
      ensures db.Valid() && deleted == |removed|
      ensures !ok ==> db.LastFailed() || (cache != null && cache.LastFailed())
      ensures RemovesExpired(db, old(db.rows), db.rows, now, removed)
      ensures ok ==> AllRemoved(db, old(db.rows), db.rows, now, removed)
      ensures cache != null ==> forall r :: r in removed ==> r.code !in cache.items
    {
      ghost var accepted;
      ok, deleted, accepted, removed := DeleteExpired(db, now, batchSize, cache);
    }

    method Trim(table: LogTable, cutoff: Time) returns (ok: bool, deleted: nat)
      requires 0 < batchSize
      modifies table
      ensures ok ==> Retained(old(table.rows), table.rows, cutoff, deleted)
      ensures !ok ==> table.LastFailed()
    {
      ok, deleted := DeleteAll(table, cutoff, batchSize);
      if ok {
        CutExactly(old(table.rows), table.rows, cutoff);
      }
    }

    method RebuildFilter(db: Database, bloom: Bloom, now: Time, temp: string) returns (ok: bool)
      requires db.Valid()
      requires temp != bloom.key && temp !in bloom.server.store.filters
      modifies db, bloom.server
      ensures db.Alone() ==> db.rows == old(db.rows)
      ensures forall r :: r in old(db.rows) && db.Keeps(r) ==> r in db.rows
      ensures ok ==> Covered(db, old(db.rows), now, bloom.server.store.Filter(bloom.key))
      ensures !ok ==> bloom.server.store.Filter(bloom.key) == old(bloom.server.store.Filter(bloom.key))
      ensures !ok ==> db.LastFailed() || bloom.server.FailedSince(old(bloom.server.commands))
    {
      ghost var handed, end;
      ok, handed, end := bloom.Rebuild(db, now, batchSize, temp);
      if ok && db.Alone() && forall r :: r in old(db.rows) ==> r.id != 0 {
        AloneHandsExactly(db, old(db.rows), now, handed);
      }
    }

    /** How far the retention deletes have come: the logs, then the statistics; each is cut
        exactly or, after an error, not counted. */
    ghost predicate Cut(repo: VisitRepository, logs: map<nat, Time>, stats: map<nat, Time>, now: Time, logsGone: nat,
                        statsGone: nat, stage: Stage)
      reads repo.log, repo.daily
    {
      if stage == Visits then repo.log.LastFailed() && repo.daily.rows == stats && logsGone == statsGone == 0
      else
        && Retained(logs, repo.log.rows, now - visitRetention, logsGone)
        && if stage == Stats then repo.daily.LastFailed() && statsGone == 0
           else Retained(stats, repo.daily.rows, repo.startOfDay(now - statRetention), statsGone)
    }

    method TrimVisits(repo: VisitRepository, now: Time) returns (ok: bool, logs: nat, stats: nat, ghost stage: Stage)
      requires 0 < batchSize && repo.log != repo.daily
      modifies repo.log, repo.daily
      ensures Cut(repo, old(repo.log.rows), old(repo.daily.rows), now, logs, stats, stage)
      ensures stage == if ok then Finished else if repo.log.LastFailed() && stage == Visits then Visits else Stats
    {
      logs, stats, stage := 0, 0, Visits;
      var deleted;
      ok, deleted := Trim(repo.log, now - visitRetention);
      if !ok {
        return;
      }
      logs, stage := deleted, Stats;
      ok, deleted := Trim(repo.daily, repo.startOfDay(now - statRetention));
      if ok {
        stats, stage := deleted, Finished;
      }
    }

    /** On any exit: only links expired at `now` have been removed, their codes have left the
        cache, and links that other sessions keep are still there.  A nil return has removed
        every kept link that had expired, the retention tables are cut exactly at their
        cutoffs, the report counts what went, and the filter holds the codes of all kept links
        active when it was scanned.  Alone, exactly the unexpired links are left and the filter
        has exactly the active codes. */
    method RunOnce(now: Time, scanNow: Time, temp: string)
      returns (ok: bool, report: Report, ghost removed: multiset<ShortLink>, ghost stage: Stage)
      requires 0 < batchSize
      requires links != null ==> links.Valid() && links.Orderly()
      requires visits != null ==> visits.log != visits.daily
      requires filter != null ==> temp != filter.key && temp !in filter.server.store.filters
      modifies links, cache, if visits == null then {} else {visits.log, visits.daily}
      modifies if filter == null then {} else {filter.server}
      ensures links != null ==> RemovesExpired(links, old(links.rows), links.rows, now, removed)
      ensures cache != null ==> forall r :: r in removed ==> r.code !in cache.items
      ensures ok <==> stage == Finished
      ensures stage == Links ==>
                && report == Report(0, 0, 0, false)
                && ((links != null && links.LastFailed()) || (cache != null && cache.LastFailed()))
                && (visits != null ==> visits.log.rows == old(visits.log.rows) && visits.daily.rows == old(visits.daily.rows))
      ensures stage != Links && links != null ==> AllRemoved(links, old(links.rows), links.rows, now, removed)
      ensures stage != Links ==> report.expiredLinksDeleted == |removed|
      ensures stage != Links && visits != null ==>
                Cut(visits, old(visits.log.rows), old(visits.daily.rows), now, report.visitLogsDeleted, report.dailyStatsDeleted, stage)
      ensures visits == null ==> stage !in {Visits, Stats} && report.visitLogsDeleted == report.dailyStatsDeleted == 0
      ensures stage == Filter ==>
                links != null && filter != null && (links.LastFailed() || filter.server.FailedSince(old(filter.server.commands)))
      ensures report.filterRebuilt <==> ok && links != null && filter != null
      ensures report.filterRebuilt && now <= scanNow ==>
                Covered(links, old(links.rows), scanNow, filter.server.store.Filter(filter.key))
      ensures filter != null && !report.filterRebuilt ==>
                filter.server.store.Filter(filter.key) == old(filter.server.store.Filter(filter.key))
    {
      ok, report, removed, stage := Sweep(now);
      if ok && links != null && filter != null {
        ghost var was := links.rows;
        ok := RebuildFilter(links, filter, scanNow, temp);
        if !ok {
          stage := Filter;
          return;
        }
        report := report.(filterRebuilt := true);
        if now <= scanNow {
          CoveredEarlier(links, old(links.rows), was, links.rows, now, scanNow, removed, filter.server.store.Filter(filter.key));
        }
      }
    }

    /** The deletions: expired links, then what retention cuts. */
    method Sweep(now: Time) returns (ok: bool, report: Report, ghost removed: multiset<ShortLink>, ghost stage: Stage)
      requires 0 < batchSize
      requires links != null ==> links.Valid() && links.Orderly()
      requires visits != null ==> visits.log != visits.daily
      modifies links, cache, if visits == null then {} else {visits.log, visits.daily}
      ensures links != null ==> links.Valid() && RemovesExpired(links, old(links.rows), links.rows, now, removed)
      ensures cache != null ==> forall r :: r in removed ==> r.code !in cache.items
      ensures (ok <==> stage == Finished) && stage != Filter && !report.filterRebuilt
      ensures stage == Links ==>
                && report == Report(0, 0, 0, false)
                && ((links != null && links.LastFailed()) || (cache != null && cache.LastFailed()))
                && (visits != null ==> visits.log.rows == old(visits.log.rows) && visits.daily.rows == old(visits.daily.rows))
      ensures stage != Links && links != null ==> AllRemoved(links, old(links.rows), links.rows, now, removed)
      ensures stage != Links ==> report.expiredLinksDeleted == |removed|
      ensures stage != Links && visits != null ==>
                Cut(visits, old(visits.log.rows), old(visits.daily.rows), now, report.visitLogsDeleted, report.dailyStatsDeleted, stage)
      ensures visits == null ==> stage !in {Visits, Stats} && report.visitLogsDeleted == report.dailyStatsDeleted == 0
    {
      report, removed, stage := Report(0, 0, 0, false), multiset{}, Links;
      ok := true;
      if links != null {
        var deleted;
        ok, deleted, removed := ExpireLinks(links, now);
        if !ok {
          return;
        }
        report := report.(expiredLinksDeleted := deleted);
      }
      stage := Finished;
      if visits != null {
        var logs, stats;
        ok, logs, stats, stage := TrimVisits(visits, now);
        report := report.(visitLogsDeleted := logs, dailyStatsDeleted := stats);
      }
    }
  }

  lemma CutExactly(was: map<nat, Time>, rows: map<nat, Time>, cutoff: Time)
    requires rows.Keys == was.Keys - set id | id in was && was[id] < cutoff
    requires forall id :: id in rows ==> rows[id] == was[id]
    ensures Retained(was, rows, cutoff, |was| - |rows|)
    ensures |rows| <= |was|
  {
    SubsetIsSmaller(rows.Keys, was.Keys);
    assert rows == map id | id in was && was[id] >= cutoff :: was[id];
  }

  lemma SubsetIsSmaller(small: set<nat>, big: set<nat>)
    requires small <= big
    ensures |small| <= |big|
  {
    assert |small| + |big - small| == |small + (big - small)|;
    assert small + (big - small) == big;
  }
}
