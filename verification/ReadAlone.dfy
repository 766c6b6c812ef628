/** What a request does to the caches, the table and the queue when no other takes a step in
    between: runs of the read path's own events, from any state
    (internal/app/linkapp/service.go, lazy_cleaner.go).
 */
module ReadAlone {
  import opened Options
  import opened Base62
  import opened Links
  import opened Tables
  import opened ReadPath
  import opened ReadRuns
  import Bloom = BloomProtocol

  function With(s: State, id: nat, r: Request): State {
    s.(requests := s.requests[id := r])
  }

  lemma WithAgain(s: State, id: nat, q: Request, r: Request)
    ensures With(With(s, id, q), id, r) == With(s, id, r)
  {
  }

  function Cached(s: State, cache: nat, item: ShortLink): State {
    s.(caches := s.caches[(cache, item.code) := item])
  }

  /** Both caches a process uses have lost the code. */
  function Dropped(s: State, p: nat, code: string): State {
    s.(caches := s.caches - {(p, code)} - {(REDIS, code)})
  }

  // ---------------------------------------------------------------- the tasks

  /** An item that has not expired is put into the cache. */
  lemma PutsItem(s: State, id: nat, r: Request, cache: nat, item: ShortLink, rest: seq<Task>) returns (es: seq<Event>)
    requires !r.Cleanup? && r.todo == [ReadTTL(cache, item)] + rest && !item.IsExpired(s.Clock())
    ensures Runs(With(s, id, r), es)
    ensures Exec(With(s, id, r), es) == With(Cached(s, cache, item), id, r.(todo := rest))
  {
    var a, q := With(s, id, r), r.(todo := [Put(cache, item)] + rest);
    es := [];
    Then(a, es, a, RunTask(id, true));
    es := es + [RunTask(id, true)];
    WithAgain(s, id, r, q);
    assert Exec(a, es) == With(s, id, q);
    Then(a, es, With(s, id, q), RunTask(id, true));
    es := es + [RunTask(id, true)];
    assert q.todo[1..] == rest;
    WithAgain(Cached(s, cache, item), id, q, r.(todo := rest));
  }

  lemma DropsCode(s: State, id: nat, r: Request, p: nat, code: string, rest: seq<Task>) returns (es: seq<Event>)
    requires !r.Cleanup? && r.todo == [Drop(p, code), Drop(REDIS, code)] + rest
    ensures Runs(With(s, id, r), es)
    ensures Exec(With(s, id, r), es) == With(Dropped(s, p, code), id, r.(todo := rest))
  {
    var a, q, t := With(s, id, r), r.(todo := [Drop(REDIS, code)] + rest), s.(caches := s.caches - {(p, code)});
    es := [];
    Then(a, es, a, RunTask(id, true));
    es := es + [RunTask(id, true)];
    assert r.todo[1..] == q.todo;
    WithAgain(t, id, r, q);
    assert Exec(a, es) == With(t, id, q);
    Then(a, es, With(t, id, q), RunTask(id, true));
    es := es + [RunTask(id, true)];
    assert q.todo[1..] == rest;
    WithAgain(Dropped(s, p, code), id, q, r.(todo := rest));
  }

  // -------------------------------------------------------- requests alone

  lemma Arrives(s: State, id: nat, p: nat, code: string) returns (es: seq<Event>)
    requires p != REDIS && id !in s.requests && IDFromShortCode(code).Some?
    ensures Runs(s, es) && Exec(s, es) == With(s, id, Resolve(p, code, ReadLocal, []))
  {
    var q := Resolve(p, code, AskFilter, []);
    es := [];
    ThenResolves(s, es, s, StartResolve(id, p, code), q);
    es := es + [StartResolve(id, p, code)];
    ThenResolves(s, es, With(s, id, q), FilterSaysMaybe(id), q.(stage := ReadLocal));
    es := es + [FilterSaysMaybe(id)];
    WithAgain(s, id, q, q.(stage := ReadLocal));
  }

  lemma ChecksLocal(s: State, id: nat, p: nat, code: string) returns (es: seq<Event>)
    requires p != REDIS && id !in s.requests && IDFromShortCode(code).Some? && (p, code) in s.caches
    ensures Runs(s, es)
    ensures Exec(s, es) == With(s, id, Checked(Resolve(p, code, GotLocal(s.caches[(p, code)]), []), s.Clock()))
  {
    var q, r := Resolve(p, code, ReadLocal, []), Resolve(p, code, GotLocal(s.caches[(p, code)]), []);
    es := Arrives(s, id, p, code);
    ThenResolves(s, es, With(s, id, q), CacheHit(id), r);
    es := es + [CacheHit(id)];
    WithAgain(s, id, q, r);
    ThenResolves(s, es, With(s, id, r), CheckItem(id), Checked(r, s.Clock()));
    es := es + [CheckItem(id)];
    WithAgain(s, id, r, Checked(r, s.Clock()));
  }

  /** A local hit that is active is the answer, and nothing else happens. */
  lemma LocalHitServes(s: State, id: nat, p: nat, code: string) returns (es: seq<Event>)
    requires p != REDIS && id !in s.requests && IDFromShortCode(code).Some?
    requires (p, code) in s.caches && s.caches[(p, code)].IsActive(s.Clock())
    ensures Runs(s, es) && Exec(s, es) == With(s, id, Resolve(p, code, Answered(Found(s.caches[(p, code)])), []))
  {
    es := ChecksLocal(s, id, p, code);
  }

  /** A local hit that is not is dropped from both caches, and the request goes on. */
  lemma StaleHitIsDropped(s: State, id: nat, p: nat, code: string) returns (es: seq<Event>)
    requires CachesOk(s) && p != REDIS && id !in s.requests && IDFromShortCode(code).Some?
    requires (p, code) in s.caches && !s.caches[(p, code)].IsActive(s.Clock())
    ensures Runs(s, es) && Exec(s, es) == With(Dropped(s, p, code), id, Resolve(p, code, AtGroup, []))
  {
    assert code != "" && s.caches[(p, code)].code == code;
    es := ChecksLocal(s, id, p, code);
    var r := Resolve(p, code, AtGroup, Forget(p, code));
    assert r.todo == [Drop(p, code), Drop(REDIS, code)] + [];
    var fs := DropsCode(s, id, r, p, code, []);
    ReadRuns.Split(s, es, fs);
    es := es + fs;
  }

  lemma EntersFlight(s: State, id: nat, p: nat, code: string) returns (es: seq<Event>)
    requires p != REDIS && id !in s.requests && IDFromShortCode(code).Some? && (p, code) !in s.flights
    ensures Runs(s, es)
    ensures Exec(s, es) == With(s.(flights := s.flights[(p, code) := id]), id, Resolve(p, code, ReadRemote, []))
  {
    es := Enters(s, id, p, code);
    var q := Resolve(p, code, AtGroup, []);
    Then(s, es, With(s, id, q), Lead(id));
    es := es + [Lead(id)];
    WithAgain(s.(flights := s.flights[(p, code) := id]), id, q, q.(stage := ReadRemote));
  }

  lemma Lands(s: State, id: nat, p: nat, code: string, result: Lookup) returns (es: seq<Event>)
    requires (p, code) in s.flights && s.flights[(p, code)] == id
    requires id in s.requests && s.requests[id] == Resolve(p, code, Answered(result), [])
    ensures Runs(s, es) && Exec(s, es) == s.(flights := s.flights - {(p, code)})
  {
    es := [];
    Then(s, es, s, Return(id));
    es := es + [Return(id)];
  }

  lemma RemoteHit(s: State, id: nat, p: nat, item: ShortLink) returns (es: seq<Event>)
    requires id in s.requests && s.requests[id] == Resolve(p, item.code, ReadRemote, []) && (REDIS, item.code) in s.caches
    requires s.caches[(REDIS, item.code)] == item && item.IsActive(s.Clock())
    ensures Runs(s, es)
    ensures Exec(s, es) == With(Cached(s, p, item), id, Resolve(p, item.code, Answered(Found(item)), []))
  {
    var q := s.requests[id];
    es := [];
    ThenResolves(s, es, s, CacheHit(id), q.(stage := GotRemote(item)));
    es := es + [CacheHit(id)];
    var r := Resolve(p, item.code, Answered(Found(item)), [ReadTTL(p, item)]);
    ThenResolves(s, es, With(s, id, q.(stage := GotRemote(item))), CheckItem(id), r);
    es := es + [CheckItem(id)];
    WithAgain(s, id, q.(stage := GotRemote(item)), r);
    assert r.todo == [ReadTTL(p, item)] + [];
    var fs := PutsItem(s, id, r, p, item, []);
    ReadRuns.Split(s, es, fs);
    es := es + fs;
  }

  /** After a local miss, an active item in Redis is the answer, and the local cache has it. */
  lemma RemoteHitServes(s: State, id: nat, p: nat, code: string) returns (es: seq<Event>)
    requires Inv(s) && p != REDIS && id !in s.requests && IDFromShortCode(code).Some? && (p, code) !in s.flights
    requires (REDIS, code) in s.caches && s.caches[(REDIS, code)].IsActive(s.Clock())
    ensures Runs(s, es)
    ensures var item := s.caches[(REDIS, code)];
            Exec(s, es) == With(Cached(s, p, item), id, Resolve(p, code, Answered(Found(item)), []))
  {
    var item := s.caches[(REDIS, code)];
    assert item.code == code;
    es := EntersFlight(s, id, p, code);
    var fs := RemoteHit(Exec(s, es), id, p, item);
    ReadRuns.Split(s, es, fs);
    es := es + fs;
    fs := Lands(Exec(s, es), id, p, code, Found(item));
    ReadRuns.Split(s, es, fs);
    es := es + fs;
    assert s.flights[(p, code) := id] - {(p, code)} == s.flights;
    WithAgain(s, id, Resolve(p, code, ReadRemote, []), Resolve(p, code, Answered(Found(item)), []));
  }

  /** An item in Redis that is not active is dropped from both caches, and the row is read. */
  lemma StaleRemoteIsDropped(s: State, id: nat, p: nat, code: string) returns (es: seq<Event>)
    requires CachesOk(s) && id in s.requests && s.requests[id] == Resolve(p, code, ReadRemote, []) && code != ""
    requires (REDIS, code) in s.caches && !s.caches[(REDIS, code)].IsActive(s.Clock())
    ensures Runs(s, es) && Exec(s, es) == With(Dropped(s, p, code), id, Resolve(p, code, ReadRow, []))
  {
    var item, q := s.caches[(REDIS, code)], s.requests[id];
    assert item.code == code;
    es := [];
    ThenResolves(s, es, s, CacheHit(id), q.(stage := GotRemote(item)));
    es := es + [CacheHit(id)];
    var r := Resolve(p, code, ReadRow, Forget(p, code));
    ThenResolves(s, es, With(s, id, q.(stage := GotRemote(item))), CheckItem(id), r);
    es := es + [CheckItem(id)];
    WithAgain(s, id, q.(stage := GotRemote(item)), r);
    assert r.todo == [Drop(p, code), Drop(REDIS, code)] + [];
    var fs := DropsCode(s, id, r, p, code, []);
    ReadRuns.Split(s, es, fs);
    es := es + fs;
  }

  /** The row of a request that leads its flight has been read and is checked. */
  lemma ReadsRow(s: State, id: nat, p: nat, row: ShortLink) returns (es: seq<Event>)
    requires p != REDIS && id !in s.requests && IDFromShortCode(row.code).Some? && (p, row.code) !in s.flights && row in s.Table()
    ensures Runs(s, es)
    ensures Exec(s, es) == With(s.(flights := s.flights[(p, row.code) := id]), id,
                                Checked(Resolve(p, row.code, GotRow(row), []), s.Clock()))
  {
    var t, q := s.(flights := s.flights[(p, row.code) := id]), Resolve(p, row.code, ReadRemote, []);
    es := EntersFlight(s, id, p, row.code);
    ThenResolves(s, es, With(t, id, q), CacheMiss(id), q.(stage := ReadRow));
    es := es + [CacheMiss(id)];
    WithAgain(t, id, q, q.(stage := ReadRow));
    ThenResolves(s, es, With(t, id, q.(stage := ReadRow)), RowRead(id, row), q.(stage := GotRow(row)));
    es := es + [RowRead(id, row)];
    WithAgain(t, id, q.(stage := ReadRow), q.(stage := GotRow(row)));
    ThenResolves(s, es, With(t, id, q.(stage := GotRow(row))), CheckItem(id), Checked(q.(stage := GotRow(row)), s.Clock()));
    es := es + [CheckItem(id)];
    WithAgain(t, id, q.(stage := GotRow(row)), Checked(q.(stage := GotRow(row)), s.Clock()));
  }

  /** After misses in both caches, an active row is the answer, and both caches have it. */
  lemma MissFillsCaches(s: State, id: nat, p: nat, row: ShortLink) returns (es: seq<Event>)
    requires p != REDIS && id !in s.requests && IDFromShortCode(row.code).Some? && (p, row.code) !in s.flights
    requires row in s.Table() && row.IsActive(s.Clock())
    ensures Runs(s, es)
    ensures Exec(s, es) == With(Cached(Cached(s, p, row), REDIS, row), id, Resolve(p, row.code, Answered(Found(row)), []))
  {
    var t := s.(flights := s.flights[(p, row.code) := id]);
    var done := Resolve(p, row.code, Answered(Found(row)), []);
    es := ReadsRow(s, id, p, row);
    var fs := FillsBoth(t, id, p, row);
    ReadRuns.Split(s, es, fs);
    es := es + fs;
    fs := Lands(Exec(s, es), id, p, row.code, Found(row));
    ReadRuns.Split(s, es, fs);
    es := es + fs;
    assert t.flights - {(p, row.code)} == s.flights;
  }

  lemma FillsBoth(s: State, id: nat, p: nat, row: ShortLink) returns (es: seq<Event>)
    requires row.IsActive(s.Clock())
    ensures var r := Checked(Resolve(p, row.code, GotRow(row), []), s.Clock());
            && Runs(With(s, id, r), es)
            && Exec(With(s, id, r), es) ==
                 With(Cached(Cached(s, p, row), REDIS, row), id, Resolve(p, row.code, Answered(Found(row)), []))
  {
    var r := Checked(Resolve(p, row.code, GotRow(row), []), s.Clock());
    assert r.todo == [ReadTTL(p, row)] + [ReadTTL(REDIS, row)];
    es := PutsItem(s, id, r, p, row, [ReadTTL(REDIS, row)]);
    var q := Resolve(p, row.code, Answered(Found(row)), [ReadTTL(REDIS, row)]);
    assert q.todo == [ReadTTL(REDIS, row)] + [];
    var fs := PutsItem(Cached(s, p, row), id, q, REDIS, row, []);
    ReadRuns.Split(With(s, id, r), es, fs);
    es := es + fs;
  }

  /** A code goes to the lazy cleaner's queue while there is room. */
  function Queueing(s: State, code: string): State {
    if |s.lazyQueue| < s.lazyCapacity then s.(lazyQueue := s.lazyQueue + [(code, s.Clock())]) else s
  }

  /** An expired row is answered as expired; both caches lose the code, which goes to the lazy
      cleaner's queue with the present time. */
  lemma ExpiredRowIsForgotten(s: State, id: nat, p: nat, row: ShortLink) returns (es: seq<Event>)
    requires p != REDIS && id !in s.requests && IDFromShortCode(row.code).Some? && (p, row.code) !in s.flights
    requires row in s.Table() && row.IsExpired(s.Clock())
    ensures Runs(s, es)
    ensures Exec(s, es) == With(Queueing(Dropped(s, p, row.code), row.code), id, Resolve(p, row.code, Answered(Expired), []))
  {
    var t := s.(flights := s.flights[(p, row.code) := id]);
    es := ReadsRow(s, id, p, row);
    var fs := ForgetsRow(t, id, p, row);
    ReadRuns.Split(s, es, fs);
    es := es + fs;
    fs := Lands(Exec(s, es), id, p, row.code, Expired);
    ReadRuns.Split(s, es, fs);
    es := es + fs;
    assert t.flights - {(p, row.code)} == s.flights;
  }

  lemma ForgetsRow(s: State, id: nat, p: nat, row: ShortLink) returns (es: seq<Event>)
    requires row.IsExpired(s.Clock()) && row.code != ""
    ensures var r := Checked(Resolve(p, row.code, GotRow(row), []), s.Clock());
            && Runs(With(s, id, r), es)
            && Exec(With(s, id, r), es) ==
                 With(Queueing(Dropped(s, p, row.code), row.code), id, Resolve(p, row.code, Answered(Expired), []))
  {
    var r := Checked(Resolve(p, row.code, GotRow(row), []), s.Clock());
    var queued := [Enqueue(row.code, s.Clock())];
    assert r.todo == [Drop(p, row.code), Drop(REDIS, row.code)] + queued;
    es := DropsCode(s, id, r, p, row.code, queued);
    var t, q := Dropped(s, p, row.code), Resolve(p, row.code, Answered(Expired), queued);
    Then(With(s, id, r), es, With(t, id, q), RunTask(id, true));
    es := es + [RunTask(id, true)];
    assert q.todo[1..] == [];
    WithAgain(Queueing(t, row.code), id, q, Resolve(p, row.code, Answered(Expired), []));
  }

  /** The lazy cleaner deletes exactly the row of the queued code, if it had expired then. */
  lemma LazyCleanerDeletes(s: State)
    requires Inv(s) && s.lazyQueue != []
    ensures Enabled(s, LazyDelete(true))
    ensures var t := Step(s, LazyDelete(true));
            && t.lazyQueue == s.lazyQueue[1..] && t.caches == s.caches && t.requests == s.requests
            && forall r :: r in t.Table() <==>
                 r in s.Table() && !(r.code == s.lazyQueue[0].0 && r.expireAt != None && r.expireAt.value <= s.lazyQueue[0].1)
  {
  }

  /** After a Create's Add has returned success, Redis gets the item; after a failed one, not. */
  lemma CreateWarmsRedis(s: State, id: nat) returns (es: seq<Event>)
    requires AddIsOver(s, id) && !s.requests[id].row.IsExpired(s.Clock()) && s.requests[id].todo == []
    ensures Runs(s, es)
    ensures var row := s.requests[id].row;
            Exec(s, es) == With(if s.bloom.adders[row.id].phase.Added? then Cached(s, REDIS, row) else s, id, Create(row, false, []))
  {
    var row := s.requests[id].row;
    es := [];
    Then(s, es, s, AddReturns(id));
    es := es + [AddReturns(id)];
    if s.bloom.adders[row.id].phase.Added? {
      var r := Create(row, false, [ReadTTL(REDIS, row)]);
      assert r.todo == [ReadTTL(REDIS, row)] + [];
      var fs := PutsItem(s, id, r, REDIS, row, []);
      ReadRuns.Split(s, es, fs);
      es := es + fs;
    }
  }

  /** The batch cleanup takes the codes of its page out of Redis and then its rows out of the
      table; a page may hold any rows that had expired when it started. */
  lemma CleanupPurges(s: State, id: nat, page: set<ShortLink>) returns (es: seq<Event>)
    requires id !in s.requests && forall r :: r in page ==> r in s.Table() && r.expireAt != None && r.expireAt.value <= s.Clock()
    ensures Runs(s, es)
    ensures var t := Exec(s, es);
            && t.Table() == s.Table() - page && t.lazyQueue == s.lazyQueue
            && t.caches == s.caches - set r | r in page :: (REDIS, r.code)
  {
    var q := Cleanup(s.Clock(), page);
    es := [];
    Then(s, es, s, StartCleanup(id));
    es := es + [StartCleanup(id)];
    Then(s, es, With(s, id, Cleanup(s.Clock(), {})), SelectPage(id, page));
    es := es + [SelectPage(id, page)];
    WithAgain(s, id, Cleanup(s.Clock(), {}), q);
    Then(s, es, With(s, id, q), InvalidatePage(id));
    es := es + [InvalidatePage(id)];
    Then(s, es, With(s, id, q).(caches := s.caches - set r | r in page :: (REDIS, r.code)), DeletePage(id));
    es := es + [DeletePage(id)];
  }

  /** What may go wrong at any time: an entry vanishes, a cache command of a task fails and is
      ignored, the statement of a load fails, a deletion of the lazy cleaner fails. */
  lemma FailuresCanStrike(s: State, id: nat, key: CacheKey)
    ensures Enabled(s, Evict(key)) && Step(s, Evict(key)) == s.(caches := s.caches - {key})
    ensures HasTask(s, id) ==>
              && Enabled(s, RunTask(id, false)) && Step(s, RunTask(id, false)).caches == s.caches
              && Step(s, RunTask(id, false)).requests.Keys == s.requests.Keys
    ensures At(s, id, ReadRow) ==>
              Enabled(s, StatementFails(id)) && Step(s, StatementFails(id)) == With(s, id, s.requests[id].(stage := Broken))
    ensures s.lazyQueue != [] ==>
              Enabled(s, LazyDelete(false)) && Step(s, LazyDelete(false)).Table() == s.Table()
  {
  }
}
