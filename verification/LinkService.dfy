/** CreateShortLink and Resolve as one request executes them, over the real local cache,
    Redis, the filter and the tables (internal/app/linkapp/service.go, lazy_cleaner.go).

    One request at a time, at one clock reading; ReadPath interleaves them.
 */
module LinkService {
  import opened Options
  import opened Base62
  import opened Links
  import opened Tables
  import opened Repository
  import opened RedisBloom
  import LocalCache
  import RemoteCache
  import Spec = CacheSpec

  // ------------------------------------------------------------ lazy cleaner

  /** The bounded queue of expired codes and the goroutine that deletes their rows. */
  class LazyExpiredCleaner {
    var queue: seq<(string, Time)>
    const repo: Database?
    const capacity: nat

    constructor (repo: Database?, queueSize: int)
      ensures queue == [] && this.repo == repo && capacity == if queueSize <= 0 then 4096 else queueSize
    {
      queue, this.repo := [], repo;
      capacity := if queueSize <= 0 then 4096 else queueSize;
    }

    /** Whether a code is taken; never blocks, and a full queue drops it. */
    predicate Takes(code: string)
      reads this
    {
      repo != null && code != "" && |queue| < capacity
    }

    method Enqueue(code: string, before: Time) returns (ok: bool)
      modifies this
      ensures ok == (repo != null && code != "" && |old(queue)| < capacity)
      ensures queue == old(queue) + if ok then [(code, before)] else []
    {
      ok := Takes(code);
      if ok {
        queue := queue + [(code, before)];
      }
    }

    /** The consumer loop, which its context stops after some number of turns.  It takes the
        first items, deletes only rows that had expired at the time they were queued with, and,
        if no statement fails, all of those that other sessions leave alone; failures are only
        logged.  Without a repository it is never started. */
    method Run(turns: nat) returns (ghost removed: set<ShortLink>)
      requires repo != null ==> repo.Valid()
      modifies this, repo
      ensures repo == null ==> queue == old(queue)
      ensures repo != null ==>
                var taken := old(queue)[..if turns < |old(queue)| then turns else |old(queue)|];
                && old(queue) == taken + queue
                && repo.Valid() && Kept(repo, old(repo.rows)) - removed <= repo.rows
                && (repo.Alone() ==> repo.rows == old(repo.rows) - removed)
                && (forall r :: r in removed ==> Queued(taken, r))
                && ((forall k :: !repo.fails(k)) ==>
                     forall r :: r in Kept(repo, old(repo.rows)) && Queued(taken, r) ==> r in removed)
    {
      removed := {};
      if repo == null {
        return;
      }
      ghost var all := queue;
      ghost var kept := Kept(repo, repo.rows);
      var done := 0;
      while queue != [] && done < turns
        invariant done + |queue| == |all| && queue == all[done..] && done <= turns
        invariant repo.Valid() && kept - removed <= repo.rows
        invariant repo.Alone() ==> repo.rows == old(repo.rows) - removed
        invariant forall r :: r in removed ==> Queued(all[..done], r)
        invariant (forall k :: !repo.fails(k)) ==> forall r :: r in kept && Queued(all[..done], r) ==> r in removed
        decreases |queue|
      {
        var item := queue[0];
        assert item == all[done] && all[..done + 1] == all[..done] + [item];
        queue := queue[1..];
        QueuedAppend(all[..done], item);
        ghost var gone := DeleteOne(item, kept - removed);
        removed := removed + gone;
        done := done + 1;
      }
    }

    method DeleteOne(item: (string, Time), ghost kept: set<ShortLink>) returns (ghost gone: set<ShortLink>)
      requires repo != null && repo.Valid() && KeptBy(repo, kept)
      modifies repo
      ensures repo.Valid() && kept - gone <= repo.rows
      ensures repo.Alone() ==> repo.rows == old(repo.rows) - gone
      ensures forall r :: r in gone ==> r.code == item.0 && r.IsExpired(item.1)
      ensures (forall k :: !repo.fails(k)) ==> forall r :: r in kept && r.code == item.0 && r.IsExpired(item.1) ==> r in gone
    {
      ghost var was := repo.others(repo.statements, repo.rows);
      var ok, _ := DeleteExpiredCode(repo, item.0, item.1);
      gone := if ok then set r | r in was && r.code == item.0 && r.IsExpired(item.1) else {};
    }
  }

  /** The code of the row is in the queue, with a time at which the row had expired. */
  ghost predicate Queued(queue: seq<(string, Time)>, r: ShortLink) {
    exists i :: 0 <= i < |queue| && queue[i].0 == r.code && r.IsExpired(queue[i].1)
  }

  lemma QueuedAppend(queue: seq<(string, Time)>, item: (string, Time))
    ensures forall r :: Queued(queue + [item], r) <==> Queued(queue, r) || (item.0 == r.code && r.IsExpired(item.1))
  {
    var more := queue + [item];
    forall r
      ensures Queued(more, r) <==> Queued(queue, r) || (item.0 == r.code && r.IsExpired(item.1))
    {
      if Queued(queue, r) {
        var i :| 0 <= i < |queue| && queue[i].0 == r.code && r.IsExpired(queue[i].1);
        assert more[i] == queue[i];
      }
      assert more[|queue|] == item;
    }
  }

  // ----------------------------------------------------------------- service

  /** The item is its row, or has expired. */
  ghost predicate ItemOk(rows: set<ShortLink>, item: ShortLink, now: Time) {
    item in rows || item.IsExpired(now)
  }

  ghost predicate EntriesOk(rows: set<ShortLink>, c: seq<Spec.Entry>, now: Time) {
    forall e :: e in c ==> e.value.code == e.code && ItemOk(rows, e.value, now)
  }

  ghost predicate RemoteOk(rows: set<ShortLink>, items: map<string, RemoteCache.Stored>, now: Time) {
    forall code :: code in items ==> items[code].value.code == code && ItemOk(rows, items[code].value, now)
  }

  datatype CreateResult =
    | Created(code: string, shortURL: string, longURL: string, expireAt: Option<Time>)
    | InvalidURL
    | StoreFailed
    | FilterFailed

  datatype URL = URL(scheme: string, host: string)

  function TrimSlashes(s: string): string {
    if s != "" && s[|s| - 1] == '/' then TrimSlashes(s[..|s| - 1]) else s
  }

  /** What is cut off is slashes, and all of them. */
  lemma {:induction false} TrimSlashesExactly(s: string) returns (n: nat)
    ensures n <= |s| && TrimSlashes(s) == s[..n] && (forall k :: n <= k < |s| ==> s[k] == '/') && (n > 0 ==> s[n - 1] != '/')
  {
    n := |s|;
    if s != "" && s[|s| - 1] == '/' {
      n := TrimSlashesExactly(s[..|s| - 1]);
    }
  }

  /** `hasLocal` false stands for a nil local cache; `parse` is the standard library's parser
      of request URIs. */
  class Service {
    const db: Database
    const hasLocal: bool
    const local: LocalCache.Local
    const remote: RemoteCache.Cache?
    const filter: Bloom?
    const cleaner: LazyExpiredCleaner?
    const domain: string
    const cacheTTL: int
    const parse: string -> Option<URL>

    constructor (db: Database, hasLocal: bool, local: LocalCache.Local, remote: RemoteCache.Cache?, filter: Bloom?,
                 cleaner: LazyExpiredCleaner?, domain: string, cacheTTL: int, parse: string -> Option<URL>)
      ensures this.db == db && this.hasLocal == hasLocal && this.local == local && this.remote == remote
      ensures this.filter == filter && this.cleaner == cleaner && this.parse == parse
      ensures this.domain == TrimSlashes(domain)
      ensures this.cacheTTL == (if cacheTTL <= 0 then 1_800_000_000_000 else cacheTTL) > 0 // half an hour
    {
      this.db, this.hasLocal, this.local, this.remote := db, hasLocal, local, remote;
      this.filter, this.cleaner, this.parse := filter, cleaner, parse;
      this.domain := TrimSlashes(domain);
      this.cacheTTL := if cacheTTL <= 0 then 30 * MINUTE else cacheTTL;
    }

    ghost predicate LocalOk(rows: set<ShortLink>, now: Time)
      reads local, local.lru, local.lru.nodes
    {
      local.Valid() && EntriesOk(rows, local.Contents(), now)
    }

    ghost predicate MostRecent(item: ShortLink)
      reads local, local.lru, local.lru.nodes
    {
      local.Contents() != [] && local.Contents()[0].value == item
    }

    ghost predicate CachesOk(rows: set<ShortLink>, now: Time)
      reads local, local.lru, local.lru.nodes, remote
    {
      && LocalOk(rows, now)
      && (remote != null ==> RemoteOk(rows, remote.items, now))
    }

    /** None: the item has expired already and is not to be cached. */
    function CacheTTLFor(item: ShortLink, now: Time): (ttl: Option<int>)
      requires cacheTTL > 0
      ensures ttl.None? <==> item.IsExpired(now)
      ensures ttl.Some? ==> 0 < ttl.value <= cacheTTL
      ensures ttl.Some? && item.expireAt.Some? ==> now + ttl.value <= item.expireAt.value
      ensures ttl.Some? && ttl.value < cacheTTL ==> item.expireAt == Some(now + ttl.value)
    {
      if item.expireAt.None? then Some(cacheTTL)
      else
        var untilExpire := item.expireAt.value - now;
        if untilExpire <= 0 then None else if untilExpire < cacheTTL then Some(untilExpire) else Some(cacheTTL)
    }

    // --------------------------------------------- what the caches answer

    ghost function LocalItem(code: string, now: Time): Option<ShortLink>
      reads local, local.lru, local.lru.nodes
    {
      if hasLocal then Spec.GetHit(local.Contents(), code, now) else None
    }

    ghost predicate ServedLocally(code: string, now: Time)
      reads local, local.lru, local.lru.nodes
    {
      LocalItem(code, now).Some? && LocalItem(code, now).value.IsActive(now)
    }

    /** What the GET answers if the local cache does not serve: an inactive local item has been
        deleted from both caches before. */
    ghost function RemoteItem(code: string, now: Time): Option<ShortLink>
      reads local, local.lru, local.lru.nodes, remote
    {
      if remote == null then None
      else if LocalItem(code, now).None? then if remote.fails(remote.commands) then None else remote.Peek(code, now)
      else if !remote.fails(remote.commands) || remote.fails(remote.commands + 1) then None
      else remote.Peek(code, now)
    }

    ghost function CachedItem(code: string, now: Time): Option<ShortLink>
      reads local, local.lru, local.lru.nodes, remote
    {
      if ServedLocally(code, now) then LocalItem(code, now) else ActiveOnly(RemoteItem(code, now), now)
    }

    /** The local cache has no entry of the code. */
    ghost predicate Lacks(code: string)
      reads local, local.lru, local.lru.nodes
    {
      hasLocal ==> forall e :: e in local.Contents() ==> e.code != code
    }

    /** The item is the most recent local entry, to be kept as long as it may. */
    ghost predicate FreshLocal(item: ShortLink, now: Time)
      requires cacheTTL > 0
      reads local, local.lru, local.lru.nodes
    {
      && MostRecent(item) && CacheTTLFor(item, now).Some?
      && local.Contents()[0].expireAt == now + CacheTTLFor(item, now).value
    }

    /** Redis answers the item until its time to live has passed. */
    ghost predicate FreshRemote(item: ShortLink, now: Time)
      requires cacheTTL > 0
      reads remote
    {
      && remote != null && CacheTTLFor(item, now).Some?
      && forall t :: remote.Peek(item.code, t) == if t < now + CacheTTLFor(item, now).value then Some(item) else None
    }

    // ----------------------------------------------------- cache accesses

    method SetLocal(ghost rows: set<ShortLink>, item: ShortLink, now: Time)
      requires cacheTTL > 0 && LocalOk(rows, now) && ItemOk(rows, item, now)
      modifies local.Repr()
      ensures LocalOk(rows, now) && forall n :: n in local.lru.nodes ==> n in old(local.lru.nodes) || fresh(n)
      ensures hasLocal && !item.IsExpired(now) ==> FreshLocal(item, now)
      ensures !hasLocal || item.IsExpired(now) ==> local.Contents() == old(local.Contents())
      ensures forall e :: e in local.Contents() && e.code != item.code ==> e in old(local.Contents())
    {
      var ttl := CacheTTLFor(item, now);
      if hasLocal && ttl.Some? {
        local.CodesDistinct();
        SetKeepsEntries(rows, local.Contents(), local.maxEntries, item, ttl.value, now);
        local.Set(item, ttl.value, now, now);
      }
    }

    method SetRemote(ghost rows: set<ShortLink>, item: ShortLink, now: Time)
      requires cacheTTL > 0 && (remote != null ==> RemoteOk(rows, remote.items, now)) && ItemOk(rows, item, now)
      modifies remote
      ensures remote != null ==> RemoteOk(rows, remote.items, now) && remote.items - {item.code} == old(remote.items) - {item.code}
      ensures remote != null && !remote.fails(old(remote.commands)) && !item.IsExpired(now) ==> FreshRemote(item, now)
      ensures remote != null && item.IsExpired(now) ==> remote.items == old(remote.items) && remote.commands == old(remote.commands)
    {
      var ttl := CacheTTLFor(item, now);
      if remote != null && ttl.Some? {
        var _ := remote.Set(item, ttl.value, now);
      }
    }

    method DeleteCaches(ghost rows: set<ShortLink>, code: string, now: Time)
      requires CachesOk(rows, now)
      modifies local.Repr(), remote
      ensures CachesOk(rows, now) && forall n :: n in local.lru.nodes ==> n in old(local.lru.nodes)
      ensures Lacks(code) && forall e :: e in local.Contents() ==> e in old(local.Contents())
      ensures remote != null ==>
                && remote.commands == old(remote.commands) + 1
                && remote.items == if remote.fails(old(remote.commands)) then old(remote.items) else old(remote.items) - {code}
    {
      DeleteLocal(rows, code, now);
      DeleteRemote(rows, code, now);
    }

    method DeleteRemote(ghost rows: set<ShortLink>, code: string, now: Time)
      requires remote != null ==> RemoteOk(rows, remote.items, now)
      modifies remote
      ensures remote != null ==>
                && RemoteOk(rows, remote.items, now) && remote.commands == old(remote.commands) + 1
                && remote.items == if remote.fails(old(remote.commands)) then old(remote.items) else old(remote.items) - {code}
    {
      if remote != null {
        var ok := remote.Delete([code]);
        assert (set c | c in [code]) == {code};
      }
    }

    method DeleteLocal(ghost rows: set<ShortLink>, code: string, now: Time)
      requires LocalOk(rows, now)
      modifies local.Repr()
      ensures LocalOk(rows, now) && forall n :: n in local.lru.nodes ==> n in old(local.lru.nodes)
      ensures Lacks(code) && forall e :: e in local.Contents() ==> e in old(local.Contents())
      ensures forall e :: e in old(local.Contents()) && e.code != code ==> e in local.Contents()
    {
      if hasLocal {
        local.CodesDistinct();
        Spec.DeleteKeeps(local.Contents(), [code]);
        local.Delete([code]);
      }
    }

    method PeekLocal(ghost rows: set<ShortLink>, code: string, now: Time) returns (r: Option<ShortLink>)
      requires LocalOk(rows, now)
      modifies local.Repr()
      ensures LocalOk(rows, now) && forall n :: n in local.lru.nodes ==> n in old(local.lru.nodes)
      ensures r == old(LocalItem(code, now)) && forall e :: e in local.Contents() ==> e in old(local.Contents())
      ensures r.Some? ==> r.value.code == code && ItemOk(rows, r.value, now) && hasLocal && MostRecent(r.value)
      ensures r.None? ==> Lacks(code)
    {
      r := None;
      if hasLocal {
        local.CodesDistinct();
        GetKeepsEntries(rows, local.Contents(), code, now);
        r := local.Get(code, now);
      }
    }

    /** A local hit that is still active; an inactive one is deleted from both caches. */
    method GetLocal(ghost rows: set<ShortLink>, code: string, now: Time) returns (r: Option<ShortLink>)
      requires CachesOk(rows, now) && code != ""
      modifies local.Repr(), remote
      ensures CachesOk(rows, now) && forall n :: n in local.lru.nodes ==> n in old(local.lru.nodes)
      ensures r == (if old(ServedLocally(code, now)) then old(LocalItem(code, now)) else None)
      ensures r.Some? ==> r.value.code == code && r.value in rows && hasLocal && MostRecent(r.value)
      ensures r.None? ==> Lacks(code)
      ensures forall e :: e in local.Contents() ==> e in old(local.Contents())
      ensures remote != null ==>
                if r.Some? || old(LocalItem(code, now)).None? then
                  remote.items == old(remote.items) && remote.commands == old(remote.commands)
                else
                  && remote.commands == old(remote.commands) + 1
                  && remote.items == if remote.fails(old(remote.commands)) then old(remote.items) else old(remote.items) - {code}
    {
      r := PeekLocal(rows, code, now);
      if r.Some? && !r.value.IsActive(now) {
        if r.value.code != "" {
          DeleteCaches(rows, r.value.code, now);
        }
        r := None;
      }
    }

    /** The same for Redis; a failed GET counts as a miss. */
    method GetRemote(ghost rows: set<ShortLink>, code: string, now: Time) returns (r: Option<ShortLink>)
      requires CachesOk(rows, now) && code != ""
      modifies local.Repr(), remote
      ensures CachesOk(rows, now) && forall n :: n in local.lru.nodes ==> n in old(local.lru.nodes)
      ensures forall e :: e in local.Contents() ==> e in old(local.Contents())
      ensures r == if remote == null || remote.fails(old(remote.commands)) then None else ActiveOnly(old(remote.Peek(code, now)), now)
      ensures r.Some? ==> r.value.code == code && r.value in rows && remote.items == old(remote.items)
      ensures remote != null ==> remote.items - {code} == old(remote.items) - {code}
    {
      r := None;
      if remote == null {
        return;
      }
      var ok;
      ok, r := remote.Get(code, now);
      if r.Some? && !r.value.IsActive(now) {
        if r.value.code != "" {
          DeleteCaches(rows, r.value.code, now);
        }
        r := None;
      }
    }

    /** BF.EXISTS: added codes are always found, others perhaps. */
    method MightContain(code: string, falsePositive: bool) returns (answer: Option<bool>)
      requires filter != null
      modifies filter.server
      ensures filter.server.store == old(filter.server.store)
      ensures answer == if filter.server.fails(old(filter.server.commands)) then None
                        else Some(falsePositive || code in filter.server.store.Filter(filter.key))
    {
      var ok := filter.server.Perform(filter.server.store);
      answer := if ok then Some(falsePositive || code in filter.server.store.Filter(filter.key)) else None;
    }

    /** An expired code is queued for the lazy cleaner, while there is room; nothing else is. */
    ghost function ToQueue(answer: Option<Lookup>, code: string, now: Time): seq<(string, Time)>
      requires cleaner != null
      reads cleaner
    {
      if answer == Some(Expired) && cleaner.Takes(code) then [(code, now)] else []
    }

    /** The filter will say no. */
    ghost predicate FilterRejects(code: string, falsePositive: bool)
      reads if filter == null then {} else {filter.server}
    {
      && filter != null && !falsePositive && !filter.server.fails(filter.server.commands)
      && code !in filter.server.store.Filter(filter.key)
    }

    /** The filter will say no, without knowing the code, to an active link. */
    ghost predicate FilterMisses(code: string, now: Time, falsePositive: bool)
      reads db, if filter == null then {} else {filter.server}
    {
      FilterRejects(code, falsePositive) && code in ActiveCodes(db.rows, now)
    }

    /** Resolve answers an item exactly when a direct read of the table would, and the same
        one, if and only if the filter does not miss the link; None is a failed statement.

        A malformed or rejected code touches nothing else.  An item that the local cache, or
        else Redis, has and that is active is served without a statement; otherwise one
        statement is sent and decides the answer.  Afterwards the served item is the most recent
        local entry and, when it was read from the table, Redis has it as long as it may; of an
        expired link nothing is left in the caches, and its code is queued for deletion.

        The caches stay coherent, and other sessions may delete expired rows and write new ones
        before the statement. */
    method Resolve(code: string, now: Time, falsePositive: bool) returns (answer: Option<Lookup>)
      requires cacheTTL > 0 && db.Valid() && db.KeepsLive(now) && CachesOk(db.rows, now)
      modifies local.Repr(), remote, db, cleaner, if filter == null then {} else {filter.server}
      ensures db.Valid() && CachesOk(db.rows, now)
      ensures answer.Some? ==> (Agrees(db.rows, code, now, answer.value) <==> !old(FilterMisses(code, now, falsePositive)))
      ensures IDFromShortCode(code).None? ==> answer == Some(InvalidCode)
      ensures IDFromShortCode(code).Some? && old(FilterRejects(code, falsePositive)) ==> answer == Some(NotFound)
      ensures IDFromShortCode(code).None? || old(FilterRejects(code, falsePositive)) ==>
                && Unchanged(old(db.rows), old(db.statements)) && local.Contents() == old(local.Contents())
                && (remote != null ==> remote.items == old(remote.items) && remote.commands == old(remote.commands))
      ensures IDFromShortCode(code).Some? && !old(FilterRejects(code, falsePositive)) ==>
                Outcome(answer, old(CachedItem(code, now)), old(db.rows), old(db.statements), code, now)
      ensures old(ServedLocally(code, now)) && remote != null ==>
                remote.items == old(remote.items) && remote.commands == old(remote.commands)
      ensures IDFromShortCode(code).Some? && !old(FilterRejects(code, falsePositive)) ==>
                Left(answer, old(ServedLocally(code, now)), old(CachedItem(code, now)), code, now)
      ensures cleaner != null ==> cleaner.queue == old(cleaner.queue) + old(ToQueue(answer, code, now))
    {
      ghost var cached, servedLocally := CachedItem(code, now), ServedLocally(code, now);
      answer := Admit(code, now, falsePositive);
      assert cached == CachedItem(code, now) && servedLocally == ServedLocally(code, now) && CachesOk(db.rows, now);
      assert answer.Some? <==> IDFromShortCode(code).None? || old(FilterRejects(code, falsePositive));
      if answer.None? {
        answer := Serve(code, now, cached, servedLocally);
      }
    }

    /** A cached item is the answer, without a statement; else one statement decides it. */
    ghost predicate Outcome(answer: Option<Lookup>, cached: Option<ShortLink>, rows: set<ShortLink>, statements: nat, code: string,
                            now: Time)
      reads db
    {
      if cached.Some? then answer == Some(Found(cached.value)) && Unchanged(rows, statements)
      else
        && db.statements == statements + 1 && db.rows == db.others(statements, rows)
        && answer == if db.fails(statements) then None else Some(DirectLookup(db.rows, code, now))
    }

    /** No statement has been sent. */
    ghost predicate Unchanged(rows: set<ShortLink>, statements: nat)
      reads db
    {
      db.rows == rows && db.statements == statements
    }

    /** What a load leaves in the caches. */
    ghost predicate Left(answer: Option<Lookup>, servedLocally: bool, cached: Option<ShortLink>, code: string, now: Time)
      requires cacheTTL > 0
      reads local, local.lru, local.lru.nodes, remote
    {
      && (answer.Some? && answer.value.Found? && hasLocal ==>
           MostRecent(answer.value.item) && (!servedLocally ==> FreshLocal(answer.value.item, now)))
      && (answer.Some? && answer.value.Found? && cached.None? && remote != null && (forall k :: !remote.fails(k)) ==>
           FreshRemote(answer.value.item, now))
      && (!(answer.Some? && answer.value.Found?) ==> Lacks(code))
      && (answer == Some(Expired) && remote != null && (forall k :: !remote.fails(k)) ==> code !in remote.items)
    }

    /** What needs neither cache nor table: a malformed code and the filter's no.  No filter, and
        a failed BF.EXISTS, let the code pass. */
    method Admit(code: string, now: Time, falsePositive: bool) returns (answer: Option<Lookup>)
      requires db.Valid()
      modifies if filter == null then {} else {filter.server}
      ensures answer == if IDFromShortCode(code).None? then Some(InvalidCode)
                        else if old(FilterRejects(code, falsePositive)) then Some(NotFound) else None
      ensures answer.Some? ==> (Agrees(db.rows, code, now, answer.value) <==> !old(FilterMisses(code, now, falsePositive)))
      ensures answer.None? ==> !old(FilterMisses(code, now, falsePositive))
    {
      FoundExactlyWhen(db.rows, code, now);
      if IDFromShortCode(code).None? {
        return Some(InvalidCode);
      }
      answer := None;
      if filter != null {
        var might := MightContain(code, falsePositive);
        if might == Some(false) {
          answer := Some(NotFound);
        }
      }
    }

    method Serve(code: string, now: Time, ghost cached: Option<ShortLink>, ghost servedLocally: bool)
      returns (answer: Option<Lookup>)
      requires cacheTTL > 0 && db.Valid() && db.KeepsLive(now) && CachesOk(db.rows, now) && IDFromShortCode(code).Some?
      requires cached == CachedItem(code, now) && servedLocally == ServedLocally(code, now)
      modifies local.Repr(), remote, db, cleaner
      ensures db.Valid() && CachesOk(db.rows, now)
      ensures answer.Some? ==> Agrees(db.rows, code, now, answer.value)
      ensures Outcome(answer, cached, old(db.rows), old(db.statements), code, now)
      ensures servedLocally && remote != null ==> remote.items == old(remote.items) && remote.commands == old(remote.commands)
      ensures Left(answer, servedLocally, cached, code, now)
      ensures cleaner != null ==> cleaner.queue == old(cleaner.queue) + old(ToQueue(answer, code, now))
    {
      ValidIsNotEmpty(code);
      var item := LoadFromCaches(db.rows, code, now);
      assert db.Valid() && Unchanged(old(db.rows), old(db.statements));
      assert cleaner != null ==> cleaner.queue == old(cleaner.queue);
      if item.Some? {
        answer := Some(Found(item.value));
      } else {
        answer := LoadFromTable(code, now);
      }
    }

    /** The local cache first, then Redis, which fills the local cache. */
    method LoadFromCaches(ghost rows: set<ShortLink>, code: string, now: Time) returns (r: Option<ShortLink>)
      requires cacheTTL > 0 && CachesOk(rows, now) && TableOk(rows) && code != ""
      modifies local.Repr(), remote
      ensures CachesOk(rows, now) && forall n :: n in local.lru.nodes ==> n in old(local.lru.nodes) || fresh(n)
      ensures r == old(CachedItem(code, now))
      ensures r.Some? ==> Agrees(rows, code, now, Found(r.value))
      ensures r.Some? && hasLocal ==> MostRecent(r.value) && (old(ServedLocally(code, now)) || FreshLocal(r.value, now))
      ensures r.None? ==> Lacks(code)
      ensures old(ServedLocally(code, now)) && remote != null ==>
                remote.items == old(remote.items) && remote.commands == old(remote.commands)
    {
      r := GetLocal(rows, code, now);
      if r.None? {
        assert remote != null && !remote.fails(remote.commands) ==>
                 ActiveOnly(remote.Peek(code, now), now) == ActiveOnly(old(RemoteItem(code, now)), now);
        r := LoadFromRemote(rows, code, now);
      }
      if r.Some? {
        FoundMeansActive(rows, code, now, r.value);
      }
    }

    method LoadFromRemote(ghost rows: set<ShortLink>, code: string, now: Time) returns (r: Option<ShortLink>)
      requires cacheTTL > 0 && CachesOk(rows, now) && code != ""
      modifies local.Repr(), remote
      ensures CachesOk(rows, now) && forall n :: n in local.lru.nodes ==> n in old(local.lru.nodes) || fresh(n)
      ensures r == if remote == null || remote.fails(old(remote.commands)) then None else ActiveOnly(old(remote.Peek(code, now)), now)
      ensures r.Some? ==> r.value.code == code && r.value.IsActive(now) && r.value in rows
      ensures r.Some? && hasLocal ==> FreshLocal(r.value, now)
      ensures r.None? ==> forall e :: e in local.Contents() ==> e in old(local.Contents())
    {
      r := GetRemote(rows, code, now);
      if r.Some? {
        SetLocal(rows, r.value, now);
      }
    }

    method LoadFromTable(code: string, now: Time) returns (answer: Option<Lookup>)
      requires cacheTTL > 0 && db.Valid() && db.KeepsLive(now) && CachesOk(db.rows, now) && IDFromShortCode(code).Some?
      requires Lacks(code)
      modifies local.Repr(), remote, db, cleaner
      ensures db.Valid() && CachesOk(db.rows, now)
      ensures answer.Some? ==> Agrees(db.rows, code, now, answer.value)
      ensures Outcome(answer, None, old(db.rows), old(db.statements), code, now)
      ensures Left(answer, false, None, code, now)
      ensures cleaner != null ==> cleaner.queue == old(cleaner.queue) + old(ToQueue(answer, code, now))
    {
      answer := ReadTable(code, now);
      KeepAnswer(answer, code, now);
    }

    /** What the load does with its answer before it returns. */
    method KeepAnswer(answer: Option<Lookup>, code: string, now: Time)
      requires cacheTTL > 0 && CachesOk(db.rows, now) && Lacks(code)
      requires answer.Some? && answer.value.Found? ==>
                 answer.value.item in db.rows && answer.value.item.IsActive(now) && answer.value.item.code == code
      modifies local.Repr(), remote, cleaner
      ensures CachesOk(db.rows, now) && Left(answer, false, None, code, now)
      ensures cleaner != null ==> cleaner.queue == old(cleaner.queue) + old(ToQueue(answer, code, now))
    {
      if answer == Some(Expired) {
        HandleExpiredCode(db.rows, code, now);
      } else if answer.Some? && answer.value.Found? {
        SetCaches(db.rows, answer.value.item, now);
      }
    }

    method ReadTable(code: string, now: Time) returns (answer: Option<Lookup>)
      requires db.Valid() && db.KeepsLive(now) && CachesOk(db.rows, now) && IDFromShortCode(code).Some?
      modifies db
      ensures db.Valid() && CachesOk(db.rows, now)
      ensures answer.Some? ==> Agrees(db.rows, code, now, answer.value)
      ensures Outcome(answer, None, old(db.rows), old(db.statements), code, now)
      ensures answer.Some? && answer.value.Found? ==>
                answer.value.item in db.rows && answer.value.item.IsActive(now) && answer.value.item.code == code
    {
      answer := FindActiveByCode(db, code, now);
      if answer.Some? && answer.value.Found? {
        FoundMeansActive(db.rows, code, now, answer.value.item);
      }
    }

    method HandleExpiredCode(ghost rows: set<ShortLink>, code: string, before: Time)
      requires CachesOk(rows, before)
      modifies local.Repr(), remote, cleaner
      ensures CachesOk(rows, before) && Lacks(code)
      ensures remote != null && !remote.fails(old(remote.commands)) ==> code !in remote.items
      ensures cleaner != null ==> cleaner.queue == old(cleaner.queue) + old(ToQueue(Some(Expired), code, before))
    {
      DeleteCaches(rows, code, before);
      EnqueueExpired(code, before);
    }

    method EnqueueExpired(code: string, before: Time)
      modifies cleaner
      ensures cleaner != null ==> cleaner.queue == old(cleaner.queue) + old(ToQueue(Some(Expired), code, before))
    {
      if cleaner != null {
        var _ := cleaner.Enqueue(code, before);
      }
    }

    method SetCaches(ghost rows: set<ShortLink>, item: ShortLink, now: Time)
      requires cacheTTL > 0 && CachesOk(rows, now) && ItemOk(rows, item, now)
      modifies local.Repr(), remote
      ensures CachesOk(rows, now)
      ensures hasLocal && !item.IsExpired(now) ==> FreshLocal(item, now)
      ensures remote != null && !remote.fails(old(remote.commands)) && !item.IsExpired(now) ==> FreshRemote(item, now)
    {
      SetLocal(rows, item, now);
      SetRemote(rows, item, now);
    }

    /** The row of a request: its own domain, or the service's if it names none. */
    function NewLink(longURL: string, reqDomain: string, expireAt: Option<Time>, id: uint64, now: Time): (item: ShortLink)
      ensures item.id == id && item.code == NewShortCode(id) && item.longURL == TrimSpace(longURL)
      ensures item.domain == (if TrimSlashes(TrimSpace(reqDomain)) == "" then domain else TrimSlashes(TrimSpace(reqDomain)))
      ensures item.expireAt == expireAt && item.status == 1 && item.createdAt == item.updatedAt == now
    {
      var requested := TrimSlashes(TrimSpace(reqDomain));
      ShortLink(id, NewShortCode(id), TrimSpace(longURL), if requested == "" then domain else requested, expireAt,
                STATUS_ACTIVE, now, now)
    }

    predicate IsValidLongURL(raw: string) {
      var u := parse(raw);
      u.Some? && (u.value.scheme == "http" || u.value.scheme == "https") && u.value.host != ""
    }

    /** The row is stored first, then the filter learns its code, then Redis is warmed.  A
        failure stops there: the row stays, later steps do not happen. */
    method CreateShortLink(longURL: string, reqDomain: string, expireAt: Option<Time>, id: uint64, now: Time)
      returns (result: CreateResult, ghost item: ShortLink)
      requires cacheTTL > 0 && db.Valid() && db.KeepsLive(now) && CachesOk(db.rows, now)
      requires filter != null ==> filter.key != ""
      modifies remote, db, if filter == null then {} else {filter.server}
      ensures db.Valid() && CachesOk(db.rows, now)
      ensures result == InvalidURL <==>
                var u := parse(TrimSpace(longURL)); u.None? || u.value.scheme !in {"http", "https"} || u.value.host == ""
      ensures item.id == id && item.code == NewShortCode(id) && item.longURL == TrimSpace(longURL)
      ensures item.domain == (if TrimSlashes(TrimSpace(reqDomain)) == "" then domain else TrimSlashes(TrimSpace(reqDomain)))
      ensures item.expireAt == expireAt && item.status == STATUS_ACTIVE && item.createdAt == item.updatedAt == now
      ensures result.InvalidURL? ==> db.rows == old(db.rows)
      ensures !result.InvalidURL? ==> Stores(result, item, old(db.rows), old(db.statements))
      ensures result.FilterFailed? ==> filter != null && filter.server.LastFailed()
      ensures result.InvalidURL? || result.StoreFailed? ==> filter != null ==> filter.server.store == old(filter.server.store)
      ensures !result.Created? ==> remote != null ==> remote.items == old(remote.items)
      ensures result.Created? && remote != null && !remote.fails(old(remote.commands)) && !item.IsExpired(now) ==>
                FreshRemote(item, now)
      ensures remote != null ==> remote.items - {item.code} == old(remote.items) - {item.code}
      ensures result.Created? ==>
                && result.code == item.code && result.expireAt == expireAt && result.longURL == item.longURL
                && result.shortURL == item.domain + "/" + item.code
                && (filter != null ==> item.code in filter.server.store.Filter(filter.key))
    {
      var link := NewLink(longURL, reqDomain, expireAt, id, now);
      item := link;
      if !IsValidLongURL(link.longURL) {
        return InvalidURL, item;
      }
      result := Publish(link, now);
      if result.Created? {
        result := Created(link.code, link.domain + "/" + link.code, link.longURL, expireAt);
      }
    }

    /** Row, filter, Redis. */
    method Publish(item: ShortLink, now: Time) returns (result: CreateResult)
      requires cacheTTL > 0 && db.Valid() && db.KeepsLive(now) && CachesOk(db.rows, now) && item.code == NewShortCode(item.id)
      requires filter != null ==> filter.key != ""
      modifies remote, db, if filter == null then {} else {filter.server}
      ensures db.Valid() && CachesOk(db.rows, now) && result != InvalidURL
      ensures Stores(result, item, old(db.rows), old(db.statements))
      ensures result.StoreFailed? && filter != null ==> filter.server.store == old(filter.server.store)
      ensures result.FilterFailed? ==> filter != null && filter.server.LastFailed()
      ensures result.Created? && filter != null ==> item.code in filter.server.store.Filter(filter.key)
      ensures !result.Created? ==> remote != null ==> remote.items == old(remote.items)
      ensures result.Created? && remote != null && !remote.fails(old(remote.commands)) && !item.IsExpired(now) ==>
                FreshRemote(item, now)
      ensures remote != null ==> remote.items - {item.code} == old(remote.items) - {item.code}
    {
      result := Store(item, now);
      assert remote != null ==> RemoteOk(db.rows, remote.items, now) && remote.items == old(remote.items);
      if result.Created? {
        SetRemote(db.rows, item, now);
      }
    }

    /** The row goes to the table unless the statement fails or a key is taken. */
    ghost predicate Stores(result: CreateResult, item: ShortLink, rows: set<ShortLink>, statements: nat)
      reads db
    {
      var was := db.others(statements, rows);
      && (result.StoreFailed? <==> db.fails(statements) || exists r :: r in was && (r.code == item.code || SameKey(r, item)))
      && db.rows == was + if result.StoreFailed? then {} else {item}
    }

    method Store(item: ShortLink, now: Time) returns (result: CreateResult)
      requires db.Valid() && db.KeepsLive(now) && CachesOk(db.rows, now) && item.code == NewShortCode(item.id)
      requires filter != null ==> filter.key != ""
      modifies db, if filter == null then {} else {filter.server}
      ensures db.Valid() && CachesOk(db.rows, now) && result != InvalidURL
      ensures Stores(result, item, old(db.rows), old(db.statements))
      ensures result.FilterFailed? ==> filter != null && filter.server.LastFailed()
      ensures result.StoreFailed? && filter != null ==> filter.server.store == old(filter.server.store)
      ensures result.Created? && filter != null ==> item.code in filter.server.store.Filter(filter.key)
    {
      IssuedCodeIsValid(item.id);
      var ok := Create(db, item);
      if !ok {
        return StoreFailed;
      }
      if filter != null {
        ok := filter.Add(item.code);
        if !ok {
          return FilterFailed;
        }
      }
      return Created(item.code, "", "", None);
    }
  }

  function ActiveOnly(item: Option<ShortLink>, now: Time): Option<ShortLink> {
    if item.Some? && item.value.IsActive(now) then item else None
  }

  lemma ValidIsNotEmpty(code: string)
    requires IDFromShortCode(code).Some?
    ensures code != ""
  {
  }

  lemma SetKeepsEntries(rows: set<ShortLink>, c: seq<Spec.Entry>, capacity: nat, item: ShortLink, ttl: int, now: Time)
    requires Spec.Distinct(c) && EntriesOk(rows, c, now) && ItemOk(rows, item, now)
    ensures EntriesOk(rows, Spec.AfterSet(c, capacity, item, ttl, now, now), now)
    ensures forall e :: e in Spec.AfterSet(c, capacity, item, ttl, now, now) && e.code != item.code ==> e in c
  {
    Spec.WithoutIn(c, item.code);
    if c != [] {
      Spec.WithoutIn(c, Spec.Victim(c, now));
    }
  }

  lemma GetKeepsEntries(rows: set<ShortLink>, c: seq<Spec.Entry>, code: string, now: Time)
    requires Spec.Distinct(c) && EntriesOk(rows, c, now)
    ensures EntriesOk(rows, Spec.AfterGet(c, code, now), now)
    ensures forall e :: e in Spec.AfterGet(c, code, now) ==> e in c
    ensures Spec.GetHit(c, code, now).None? ==> forall e :: e in Spec.AfterGet(c, code, now) ==> e.code != code
    ensures Spec.GetHit(c, code, now).Some? ==>
              var item := Spec.GetHit(c, code, now).value; item.code == code && ItemOk(rows, item, now)
  {
    Spec.LookupIn(c, code);
    Spec.WithoutIn(c, code);
  }
}
