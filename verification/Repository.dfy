/** The link repository over the sixteen shard tables
    (internal/infrastructure/mysql/short_link_repository.go).

    The callbacks of the two paged loops are the ones their only callers pass: the filter
    rebuild adds the codes to its temp key, the cleanup deletes them from the cache.
 */
module Repository {
  import opened Options
  import opened Base62
  import opened Links
  import opened Tables
  import opened RedisStore
  import RemoteCache

  function WithIds(rows: set<ShortLink>, shard: nat, ids: set<uint64>): set<ShortLink> {
    set r | r in rows && InShard(r, shard) && r.id in ids
  }

  function Ids(page: seq<ShortLink>): set<uint64> {
    set r | r in page :: r.id
  }

  function RowSet(page: seq<ShortLink>): set<ShortLink> {
    set r | r in page
  }

  ghost predicate InRange(rows: set<ShortLink>) {
    forall r :: r in rows && r.expireAt.Some? ==> r.expireAt.value > 0
  }

  ghost predicate SameRows(was: set<ShortLink>, rows: set<ShortLink>) {
    forall r, x :: r in was && x in rows && SameKey(r, x) ==> x == r
  }

  /** The database as one session sees it.  Before its k-th statement other sessions turn
      the tables into `others(k, rows)`; the statement then fails, without effect, if
      `fails(k)`.  A canceled context counts as a failing statement.
   */
  class Database {
    var rows: set<ShortLink>
    var statements: nat
    const others: (nat, set<ShortLink>) -> set<ShortLink>
    const fails: nat -> bool

    ghost predicate Valid()
      reads this
    {
      TableOk(rows) && OthersOk()
    }

    ghost predicate OthersOk() {
      forall k: nat, s {:trigger others(k, s)} :: TableOk(s) ==> TableOk(others(k, s))
    }

    /** Other sessions never remove this row. */
    ghost predicate Keeps(r: ShortLink) {
      forall k: nat, s :: r in s ==> r in others(k, s)
    }

    /** Other sessions remove no row that is unexpired at `now`. */
    ghost predicate KeepsLive(now: Time) {
      forall k: nat, s: set<ShortLink>, r: ShortLink :: r in s && !r.IsExpired(now) ==> r in others(k, s)
    }

    /** Other sessions change no row in place and give no key to another row. */
    ghost predicate Immutable() {
      forall k: nat, s {:trigger others(k, s)} :: TableOk(s) ==> SameRows(s, others(k, s))
    }

    /** Other sessions store times past Go's zero time only, which no DATETIME column can hold. */
    ghost predicate Dated() {
      forall k: nat, s {:trigger others(k, s)} :: InRange(s) ==> InRange(others(k, s))
    }

    /** This session is alone, or the others write as the program does. */
    ghost predicate OrderlyOthers() {
      Alone() || (Immutable() && Dated())
    }

    ghost predicate Orderly()
      reads this
    {
      OrderlyOthers() && (Alone() || InRange(rows))
    }

    ghost predicate Alone() {
      forall k: nat, s :: others(k, s) == s
    }

    constructor (rows: set<ShortLink>, others: (nat, set<ShortLink>) -> set<ShortLink>, fails: nat -> bool)
      ensures this.rows == rows && statements == 0 && this.others == others && this.fails == fails
    {
      this.rows, this.statements, this.others, this.fails := rows, 0, others, fails;
    }

    /** The latest statement has failed. */
    ghost predicate LastFailed()
      reads this
    {
      statements > 0 && fails(statements - 1)
    }

    method Begin() returns (ok: bool)
      requires Valid()
      modifies this
      ensures Valid() && ok == !fails(old(statements)) && statements == old(statements) + 1
      ensures rows == others(old(statements), old(rows))
    {
      rows := others(statements, rows);
      ok := !fails(statements);
      statements := statements + 1;
    }

    method SelectActive(shard: nat, lastID: uint64, now: Time, limit: nat) returns (ok: bool, page: seq<ShortLink>)
      requires Valid()
      modifies this
      ensures Valid() && rows == others(old(statements), old(rows)) && (!ok ==> LastFailed())
      ensures ok ==> IsPage(ActiveAfter(rows, shard, lastID, now), ById, limit, page)
    {
      page := [];
      ok := Begin();
      if ok {
        page := Select(ActiveAfter(rows, shard, lastID, now), ById, limit);
      }
    }

    method SelectExpired(shard: nat, before: Time, cursor: Key, limit: nat) returns (ok: bool, page: seq<ShortLink>)
      requires Valid()
      modifies this
      ensures Valid() && rows == others(old(statements), old(rows)) && (!ok ==> LastFailed())
      ensures ok ==> IsPage(ExpiredAfter(rows, shard, before, cursor), ByExpiry, limit, page)
    {
      page := [];
      ok := Begin();
      if ok {
        page := Select(ExpiredAfter(rows, shard, before, cursor), ByExpiry, limit);
      }
    }

    /** DELETE FROM the shard's table WHERE id IN ids */
    method DeleteIds(shard: nat, ids: set<uint64>) returns (ok: bool, affected: nat)
      requires Valid()
      modifies this
      ensures Valid() && (!ok ==> LastFailed())
      ensures var was := others(old(statements), old(rows));
              rows == (if ok then was - WithIds(was, shard, ids) else was) && affected == |was| - |rows|
    {
      ok := Begin();
      affected := 0;
      if ok {
        var gone := WithIds(rows, shard, ids);
        rows := rows - gone;
        affected := |gone|;
      }
    }
  }

  // ------------------------------------------------------------- active codes

  /** Where a row comes in the scan. */
  function Place(r: ShortLink): Key {
    (match ShardIndexFromCode(r.code) case None => -1 case Some(shard) => shard, r.id)
  }

  ghost predicate Ascending(handed: seq<ShortLink>) {
    forall i, j :: 0 <= i < j < |handed| ==> Precedes(Place(handed[i]), Place(handed[j]))
  }

  function AddCodes(store: Redis, key: string, codes: set<string>): Redis {
    if codes == {} then store else store.Add(key, codes)
  }

  lemma AddCodesTwice(store: Redis, key: string, a: set<string>, b: set<string>)
    ensures AddCodes(AddCodes(store, key, a), key, b) == AddCodes(store, key, a + b)
  {
    if a != {} && b != {} {
      assert store.Filter(key) + a + b == store.Filter(key) + (a + b);
      assert store.filters[key := store.Filter(key) + a][key := store.Filter(key) + a + b]
          == store.filters[key := store.Filter(key) + (a + b)];
      assert a + b != {} by {
        var x :| x in a;
        assert x in a + b;
      }
    } else if a == {} {
      assert a + b == b;
    } else {
      assert a + b == a;
    }
  }

  lemma CodeSetAppend(a: seq<ShortLink>, b: seq<ShortLink>)
    ensures CodeSet(a + b) == CodeSet(a) + CodeSet(b)
  {
  }

  /** Rows that the scan owes: other sessions keep them, and they are active. */
  ghost predicate Owed(db: Database, r: ShortLink, shard: nat, now: Time) {
    db.Keeps(r) && InShard(r, shard) && r.IsActive(now) && r.id != 0
  }

  /** Reads one page and adds it to the temp filter. */
  method ScanPage(db: Database, shard: nat, lastID: uint64, now: Time, batch: nat, server: RedisServer, temp: string)
    returns (ok: bool, page: seq<ShortLink>)
    requires db.Valid() && 0 < batch
    modifies db, server
    ensures server.commands >= old(server.commands)
    ensures !ok ==> db.LastFailed() || (server.LastFailed() && server.commands > old(server.commands))
    ensures db.Valid() && (db.Alone() ==> db.rows == old(db.rows))
    ensures forall r :: r in old(db.rows) && db.Keeps(r) ==> r in db.rows
    ensures server.store == AddCodes(old(server.store), temp, CodeSet(page))
    ensures IsPage(ActiveAfter(db.rows, shard, lastID, now), ById, batch, page) || (!ok && page == [])
    ensures ok ==> IsPage(ActiveAfter(db.rows, shard, lastID, now), ById, batch, page)
  {
    ok, page := db.SelectActive(shard, lastID, now, batch);
    if !ok || page == [] {
      page := [];
      return;
    }
    assert page[0].code in CodeSet(page);
    ok := server.Perform(server.store.Add(temp, CodeSet(page)));
    if !ok {
      page := [];
    }
  }

  /** One shard's pages.  Everything other sessions do not delete, and only active rows, each
      at most once and in order, is added to the temp filter. */
  method ScanShard(db: Database, shard: nat, now: Time, batch: nat, server: RedisServer, temp: string)
    returns (ok: bool, ghost handed: seq<ShortLink>)
    requires db.Valid() && 0 < batch
    modifies db, server
    ensures server.commands >= old(server.commands)
    ensures !ok ==> db.LastFailed() || (server.LastFailed() && server.commands > old(server.commands))
    ensures db.Valid() && (db.Alone() ==> db.rows == old(db.rows))
    ensures forall r :: r in old(db.rows) && db.Keeps(r) ==> r in db.rows
    ensures server.store == AddCodes(old(server.store), temp, CodeSet(handed))
    ensures Ascending(handed)
    ensures forall r :: r in handed ==> InShard(r, shard) && r.IsActive(now) && r.id != 0 && (db.Alone() ==> r in db.rows)
    ensures ok ==> forall r :: r in old(db.rows) && Owed(db, r, shard, now) ==> r in handed
  {
    handed := [];
    var lastID: uint64 := 0;
    while true
      invariant server.commands >= old(server.commands)
      invariant db.Valid() && (db.Alone() ==> db.rows == old(db.rows))
      invariant forall r :: r in old(db.rows) && db.Keeps(r) ==> r in db.rows
      invariant server.store == AddCodes(old(server.store), temp, CodeSet(handed))
      invariant Ascending(handed)
      invariant forall r :: r in handed ==> InShard(r, shard) && r.IsActive(now) && 0 < r.id <= lastID && (db.Alone() ==> r in db.rows)
      invariant forall r :: r in old(db.rows) && Owed(db, r, shard, now) && r.id <= lastID ==> r in handed
      decreases TWO_64 - lastID
    {
      var page;
      ok, page := ScanPage(db, shard, lastID, now, batch, server, temp);
      AddCodesTwice(old(server.store), temp, CodeSet(handed), CodeSet(page));
      CodeSetAppend(handed, page);
      if page == [] {
        assert CodeSet(page) == {};
        return;
      }
      PageFollows(handed, page, db.rows, lastID, now, batch, shard);
      handed := handed + page;
      lastID := page[|page| - 1].id;
      if !ok || |page| < batch {
        return;
      }
    }
  }

  lemma PageFollows(handed: seq<ShortLink>, page: seq<ShortLink>, rows: set<ShortLink>, lastID: uint64, now: Time,
                    batch: nat, shard: nat)
    requires Ascending(handed) && page != [] && IsPage(ActiveAfter(rows, shard, lastID, now), ById, batch, page)
    requires forall r :: r in handed ==> InShard(r, shard) && r.id <= lastID
    ensures Ascending(handed + page)
    ensures forall r :: r in page ==> r in rows && InShard(r, shard) && r.IsActive(now) && lastID < r.id <= page[|page| - 1].id
    ensures forall r :: r in rows && InShard(r, shard) && r.IsActive(now) && r.id > lastID ==>
              r in page || (|page| == batch && r.id > page[|page| - 1].id)
  {
    forall r | r in rows && InShard(r, shard) && r.IsActive(now) && r.id > lastID
      ensures r in ActiveAfter(rows, shard, lastID, now)
    {
    }
  }

  /** All shards in turn.  On success every row that other sessions leave alone and that is
      active has been added to the temp filter; no row is handed over twice, on any exit. */
  method ListActiveCodes(db: Database, now: Time, batchSize: int, server: RedisServer, temp: string)
    returns (ok: bool, ghost handed: seq<ShortLink>)
    requires db.Valid()
    modifies db, server
    ensures server.commands >= old(server.commands)
    ensures !ok ==> db.LastFailed() || (server.LastFailed() && server.commands > old(server.commands))
    ensures db.Valid() && (db.Alone() ==> db.rows == old(db.rows))
    ensures server.store == AddCodes(old(server.store), temp, CodeSet(handed))
    ensures forall r :: r in old(db.rows) && db.Keeps(r) ==> r in db.rows
    ensures Ascending(handed)
    ensures forall r :: r in handed ==> r.IsActive(now) && (db.Alone() ==> r in db.rows)
    ensures ok ==> forall r :: r in old(db.rows) && db.Keeps(r) && r.IsActive(now) && r.id != 0 ==> r in handed
  {
    var batch: nat := if batchSize <= 0 then 1000 else batchSize;
    handed := [];
    ok := true;
    for shard := 0 to SHARD_COUNT
      invariant ok && server.commands >= old(server.commands)
      invariant db.Valid() && (db.Alone() ==> db.rows == old(db.rows))
      invariant forall r :: r in old(db.rows) && db.Keeps(r) ==> r in db.rows
      invariant server.store == AddCodes(old(server.store), temp, CodeSet(handed))
      invariant Ascending(handed)
      invariant forall r :: r in handed ==> Place(r).0 < shard && r.IsActive(now) && (db.Alone() ==> r in db.rows)
      invariant forall r :: r in old(db.rows) && db.Keeps(r) && 0 <= Place(r).0 < shard && r.IsActive(now) && r.id != 0 ==> r in handed
    {
      ghost var more;
      ok, more := ScanShard(db, shard, now, batch, server, temp);
      AddCodesTwice(old(server.store), temp, CodeSet(handed), CodeSet(more));
      CodeSetAppend(handed, more);
      ShardFollows(handed, more, shard);
      handed := handed + more;
      if !ok {
        return;
      }
    }
  }

  lemma ShardFollows(handed: seq<ShortLink>, more: seq<ShortLink>, shard: nat)
    requires Ascending(handed) && Ascending(more)
    requires forall r :: r in handed ==> Place(r).0 < shard
    requires forall r :: r in more ==> InShard(r, shard)
    ensures Ascending(handed + more) && forall r :: r in handed + more ==> Place(r).0 < shard + 1
  {
    var all := handed + more;
    forall i, j | 0 <= i < j < |all|
      ensures Precedes(Place(all[i]), Place(all[j]))
    {
      if i < |handed| <= j {
        assert handed[i] in handed && more[j - |handed|] in more;
      }
    }
  }

  /** Alone, and on success, the scan hands over exactly the active rows. */
  lemma AloneHandsExactly(db: Database, before: set<ShortLink>, now: Time, handed: seq<ShortLink>)
    requires db.Alone() && db.rows == before && forall r :: r in before ==> r.id != 0
    requires forall r :: r in handed ==> r.IsActive(now) && r in db.rows
    requires forall r :: r in before && db.Keeps(r) && r.IsActive(now) && r.id != 0 ==> r in handed
    ensures CodeSet(handed) == ActiveCodes(before, now)
  {
    forall r | r in before && r.IsActive(now)
      ensures r in handed
    {
      assert db.Keeps(r);
    }
  }

  // ------------------------------------------------------------ expired rows

  function ExpiredRows(rows: set<ShortLink>, before: Time): set<ShortLink> {
    set r | r in rows && r.IsExpired(before)
  }

  /** The rows that other sessions never remove. */
  ghost function Kept(db: Database, rows: set<ShortLink>): set<ShortLink> {
    set r | r in rows && db.Keeps(r)
  }

  ghost predicate KeptBy(db: Database, kept: set<ShortLink>)
    reads db
  {
    kept <= db.rows && forall r :: r in kept ==> db.Keeps(r)
  }

  ghost function Rest(kept: set<ShortLink>, removed: multiset<ShortLink>): set<ShortLink> {
    set r | r in kept && r !in removed
  }

  /** What a session's deletions have removed, row by row, and what they leave: of the kept
      rows all but the removed ones, and exactly those when the session is alone. */
  ghost predicate Removes(kept: set<ShortLink>, alone: bool, was: set<ShortLink>, rows: set<ShortLink>, before: Time,
                          accepted: set<string>, removed: multiset<ShortLink>) {
    && (forall r :: r in removed ==> r.IsExpired(before) && r.code in accepted)
    && Rest(kept, removed) <= rows
    && (alone ==>
         && rows <= was && |removed| == |was| - |rows|
         && forall r :: r in was ==> (r in removed <==> r !in rows))
  }

  lemma RemovesTwice(kept: set<ShortLink>, alone: bool, was: set<ShortLink>, mid: set<ShortLink>, rows: set<ShortLink>,
                     before: Time, a: set<string>, first: multiset<ShortLink>, b: set<string>, second: multiset<ShortLink>)
    requires Removes(kept, alone, was, mid, before, a, first)
    requires Removes(Rest(kept, first), alone, mid, rows, before, b, second)
    ensures Removes(kept, alone, was, rows, before, a + b, first + second)
    ensures Rest(kept, first + second) == Rest(Rest(kept, first), second)
  {
    if alone {
      forall r | r in was
        ensures r in first + second <==> r !in rows
      {
        if r in second && r !in mid {
          assert r in first;
        }
      }
    }
  }

  lemma RemovesNothing(kept: set<ShortLink>, alone: bool, was: set<ShortLink>, rows: set<ShortLink>, before: Time,
                       accepted: set<string>)
    requires kept <= rows && (alone ==> rows == was)
    ensures Removes(kept, alone, was, rows, before, accepted, multiset{})
  {
  }

  lemma PageRemoved(kept: set<ShortLink>, alone: bool, rows: set<ShortLink>, was: set<ShortLink>, page: seq<ShortLink>,
                    before: Time)
    requires kept <= was && (alone ==> was == rows)
    requires forall r :: r in page ==> r in rows && r.IsExpired(before)
    ensures var gone := RowSet(page) * was;
            && Removes(kept, alone, rows, was - gone, before, CodeSet(page), multiset(gone))
            && |gone| == |was| - |was - gone|
            && forall r :: r in page && (r in kept || alone) ==> r in multiset(gone)
  {
    var gone := RowSet(page) * was;
    assert (was - gone) + gone == was;
    assert |was - gone| + |gone| == |was|;
  }

  /** The codes of a page leave the cache first, then its rows the table. */
  method DeletePage(db: Database, ghost kept: set<ShortLink>, shard: nat, before: Time, page: seq<ShortLink>,
                    cache: RemoteCache.Cache?)
    returns (ok: bool, affected: nat, ghost accepted: set<string>, ghost removed: multiset<ShortLink>)
    requires db.Valid() && db.Orderly() && KeptBy(db, kept)
    requires forall r :: r in page ==> r in db.rows && InShard(r, shard) && r.IsExpired(before)
    modifies db, cache
    ensures !ok ==> db.LastFailed() || (cache != null && cache.LastFailed())
    ensures db.Valid() && db.Orderly() && affected == |removed|
    ensures Removes(kept, db.Alone(), old(db.rows), db.rows, before, accepted, removed)
    ensures ok ==> forall r :: r in page && (r in kept || db.Alone()) ==> r in removed
    ensures cache != null ==> cache.items == old(cache.items) - accepted
  {
    affected, accepted, removed := 0, {}, multiset{};
    var ids := Ids(page);
    if cache != null {
      ok := cache.Delete(Codes(page));
      if !ok {
        return;
      }
    }
    accepted := CodeSet(page);
    CodesAreSet(page);
    ok, affected, removed := DeleteRows(db, kept, shard, before, page, ids);
  }

  method DeleteRows(db: Database, ghost kept: set<ShortLink>, shard: nat, before: Time, ghost page: seq<ShortLink>,
                    ids: set<uint64>)
    returns (ok: bool, affected: nat, ghost removed: multiset<ShortLink>)
    requires db.Valid() && db.Orderly() && KeptBy(db, kept) && ids == Ids(page)
    requires forall r :: r in page ==> r in db.rows && InShard(r, shard) && r.IsExpired(before)
    modifies db
    ensures !ok ==> db.LastFailed()
    ensures db.Valid() && db.Orderly() && affected == |removed|
    ensures Removes(kept, db.Alone(), old(db.rows), db.rows, before, CodeSet(page), removed)
    ensures ok ==> forall r :: r in page && (r in kept || db.Alone()) ==> r in removed
  {
    ghost var was := db.others(db.statements, db.rows);
    PageGone(db, kept, db.rows, db.statements, shard, before, page);
    if db.Alone() {
      assert was == db.rows;
    }
    ok, affected := db.DeleteIds(shard, ids);
    removed := if ok then multiset(RowSet(page) * was) else multiset{};
  }

  /** What is left if the deletion of a page succeeds, and if it does not. */
  lemma PageGone(db: Database, kept: set<ShortLink>, rows: set<ShortLink>, k: nat, shard: nat, before: Time, page: seq<ShortLink>)
    requires db.Valid() && db.Orderly() && KeptBy(db, kept) && rows == db.rows
    requires forall r :: r in page ==> r in rows && InShard(r, shard) && r.IsExpired(before)
    ensures var was := db.others(k, rows);
            var left, gone := was - WithIds(was, shard, Ids(page)), RowSet(page) * was;
            && Removes(kept, db.Alone(), rows, left, before, CodeSet(page), multiset(gone))
            && Removes(kept, db.Alone(), rows, was, before, CodeSet(page), multiset{})
            && |gone| == |was| - |left| && (db.Alone() || (InRange(was) && InRange(left)))
            && forall r :: r in page && (r in kept || db.Alone()) ==> r in multiset(gone)
  {
    var was := db.others(k, rows);
    OthersAreOrderly(db, kept, k);
    IdsNamePage(db, rows, was, k, shard, page);
    PageRemoved(kept, db.Alone(), rows, was, page, before);
    RemovesNothing(kept, db.Alone(), rows, was, before, CodeSet(page));
  }

  lemma OthersAreOrderly(db: Database, kept: set<ShortLink>, k: nat)
    requires db.Orderly() && KeptBy(db, kept)
    ensures var was := db.others(k, db.rows);
            kept <= was && if db.Alone() then was == db.rows else InRange(was)
  {
  }

  lemma CodesAreSet(page: seq<ShortLink>)
    ensures (set c | c in Codes(page)) == CodeSet(page)
  {
    forall r | r in page
      ensures r.code in Codes(page)
    {
      var i :| 0 <= i < |page| && page[i] == r;
      assert Codes(page)[i] == r.code;
    }
  }

  /** The ids of a page select those of its rows that are still there, and no others. */
  lemma IdsNamePage(db: Database, rows: set<ShortLink>, was: set<ShortLink>, k: nat, shard: nat, page: seq<ShortLink>)
    requires TableOk(rows) && was == db.others(k, rows) && (db.Alone() || db.Immutable())
    requires forall r :: r in page ==> r in rows && InShard(r, shard)
    ensures WithIds(was, shard, Ids(page)) == RowSet(page) * was
  {
    forall r | r in WithIds(was, shard, Ids(page))
      ensures r in page
    {
      var p :| p in page && p.id == r.id;
      assert SameKey(p, r);
    }
  }

  /** The cursor has passed none of these rows that has expired. */
  ghost predicate Passed(kept: set<ShortLink>, shard: nat, before: Time, cursor: Key) {
    forall r :: r in kept && InShard(r, shard) && r.IsExpired(before) ==> Past(cursor, r)
  }

  /** The compound cursor moves forward over the rows of its page and no other expired row; a
      short page is the last. */
  lemma NextPage(rows: set<ShortLink>, shard: nat, before: Time, cursor: Key, batch: nat, page: seq<ShortLink>)
    requires page != [] && IsPage(ExpiredAfter(rows, shard, before, cursor), ByExpiry, batch, page)
    ensures var next := KeyOf(ByExpiry, page[|page| - 1]);
            && next.0 <= before && (cursor.0 != 0 ==> Precedes(cursor, next))
            && forall r :: r in rows && InShard(r, shard) && r.IsExpired(before) && r !in page && Past(cursor, r) ==>
                 |page| == batch && Precedes(next, KeyOf(ByExpiry, r))
    ensures forall r :: r in page ==> r in rows && InShard(r, shard) && r.IsExpired(before)
  {
    forall r | r in rows && InShard(r, shard) && r.IsExpired(before) && Past(cursor, r)
      ensures r in ExpiredAfter(rows, shard, before, cursor)
    {
    }
    assert page[|page| - 1] in ExpiredAfter(rows, shard, before, cursor);
  }

  /** How the cursor moves from one page to the next. */
  predicate Advances(cursor: Key, next: Key) {
    0 < next.0 && (cursor.0 != 0 ==> Precedes(cursor, next))
  }

  /** Reads one page of expired rows and deletes it; `last` when the shard is through. */
  method DeleteExpiredPage(db: Database, ghost kept: set<ShortLink>, shard: nat, before: Time, batch: nat, cursor: Key,
                           cache: RemoteCache.Cache?)
    returns (ok: bool, last: bool, next: Key, affected: nat, ghost accepted: set<string>, ghost removed: multiset<ShortLink>)
    requires db.Valid() && db.Orderly() && KeptBy(db, kept) && 0 < batch && Passed(kept, shard, before, cursor)
    modifies db, cache
    ensures !ok ==> db.LastFailed() || (cache != null && cache.LastFailed())
    ensures db.Valid() && db.Orderly() && affected == |removed|
    ensures Removes(kept, db.Alone(), old(db.rows), db.rows, before, accepted, removed)
    ensures ok && last ==> forall r :: r in kept && InShard(r, shard) && r.IsExpired(before) ==> r in removed
    ensures ok && !last ==>
              && Passed(Rest(kept, removed), shard, before, next) && next.0 <= before && next.1 < TWO_64
              && if db.Alone() then |db.rows| < |old(db.rows)| else Advances(cursor, next)
    ensures cache != null ==> cache.items == old(cache.items) - accepted
  {
    last, next, affected, accepted, removed := true, cursor, 0, {}, multiset{};
    var page;
    ok, page := db.SelectExpired(shard, before, cursor, batch);
    ghost var rows := db.rows;
    assert KeptBy(db, kept);
    if !ok {
      return;
    }
    if page == [] {
      NothingLeft(rows, shard, before, cursor, batch);
      return;
    }
    NextPage(rows, shard, before, cursor, batch, page);
    next := KeyOf(ByExpiry, page[|page| - 1]);
    last := |page| < batch;
    assert !db.Alone() ==> InRange(rows);
    ok, affected, accepted, removed := DeletePage(db, kept, shard, before, page, cache);
    assert page[0] in page;
  }

  lemma NothingLeft(rows: set<ShortLink>, shard: nat, before: Time, cursor: Key, batch: nat)
    requires 0 < batch && IsPage(ExpiredAfter(rows, shard, before, cursor), ByExpiry, batch, [])
    ensures forall r :: r in rows && InShard(r, shard) && r.IsExpired(before) ==> !Past(cursor, r)
  {
    var matching := ExpiredAfter(rows, shard, before, cursor);
    assert forall r :: r in rows && InShard(r, shard) && r.IsExpired(before) && Past(cursor, r) ==> r in matching;
  }

  /** One shard's expired rows, a page at a time. */
  method DeleteExpiredInShard(db: Database, ghost kept: set<ShortLink>, shard: nat, before: Time, batch: nat,
                              cache: RemoteCache.Cache?)
    returns (ok: bool, total: nat, ghost accepted: set<string>, ghost removed: multiset<ShortLink>)
    requires db.Valid() && db.Orderly() && KeptBy(db, kept) && 0 < batch
    modifies db, cache
    ensures !ok ==> db.LastFailed() || (cache != null && cache.LastFailed())
    ensures db.Valid() && db.Orderly() && total == |removed|
    ensures Removes(kept, db.Alone(), old(db.rows), db.rows, before, accepted, removed)
    ensures ok ==> forall r :: r in kept && InShard(r, shard) && r.IsExpired(before) ==> r in removed
    ensures cache != null ==> cache.items == old(cache.items) - accepted
  {
    total, accepted, removed := 0, {}, multiset{};
    var cursor: Key := (0, 0);
    while true
      invariant db.Valid() && db.Orderly() && total == |removed|
      invariant Removes(kept, db.Alone(), old(db.rows), db.rows, before, accepted, removed)
      invariant Passed(Rest(kept, removed), shard, before, cursor)
      invariant (cursor.0 != 0 ==> cursor.0 <= before) && cursor.1 < TWO_64
      invariant cache != null ==> cache.items == old(cache.items) - accepted
      decreases if db.Alone() then |db.rows| else 0, if cursor.0 == 0 then 1 else 0, before - cursor.0, TWO_64 - cursor.1
    {
      ghost var was, rest := db.rows, Rest(kept, removed);
      var last, n;
      ghost var more, gone;
      ok, last, cursor, n, more, gone := DeleteExpiredPage(db, rest, shard, before, batch, cursor, cache);
      RemovesTwice(kept, db.Alone(), old(db.rows), was, db.rows, before, accepted, removed, more, gone);
      total, accepted, removed := total + n, accepted + more, removed + gone;
      if !ok || last {
        return;
      }
    }
  }

  /** Beside other sessions: only expired rows are removed, the cache having accepted the code
      of each first, and `total` counts them; a nil return has removed every expired row that
      the others left alone.  Alone, exactly the unexpired rows remain. */
  method DeleteExpired(db: Database, before: Time, batchSize: int, cache: RemoteCache.Cache?)
    returns (ok: bool, total: nat, ghost accepted: set<string>, ghost removed: multiset<ShortLink>)
    requires db.Valid() && db.Orderly()
    modifies db, cache
    ensures !ok ==> db.LastFailed() || (cache != null && cache.LastFailed())
    ensures db.Valid() && db.Orderly() && total == |removed|
    ensures Removes(Kept(db, old(db.rows)), db.Alone(), old(db.rows), db.rows, before, accepted, removed)
    ensures ok ==> forall r :: r in Kept(db, old(db.rows)) && r.IsExpired(before) ==> r in removed
    ensures ok && db.Alone() ==> db.rows == old(db.rows) - ExpiredRows(old(db.rows), before)
    ensures cache != null ==> cache.items == old(cache.items) - accepted
  {
    var batch: nat := if batchSize <= 0 then 1000 else batchSize;
    ok, total, accepted, removed := true, 0, {}, multiset{};
    ghost var rows, kept := db.rows, Kept(db, db.rows);
    for shard := 0 to SHARD_COUNT
      invariant ok
      invariant db.Valid() && db.Orderly() && total == |removed|
      invariant Removes(kept, db.Alone(), rows, db.rows, before, accepted, removed)
      invariant ShardsDone(kept, shard, before, removed)
      invariant cache != null ==> cache.items == old(cache.items) - accepted
    {
      var n;
      ghost var more, gone;
      ghost var was, rest := db.rows, Rest(kept, removed);
      ok, n, more, gone := DeleteExpiredInShard(db, rest, shard, before, batch, cache);
      RemovesTwice(kept, db.Alone(), rows, was, db.rows, before, accepted, removed, more, gone);
      total, accepted := total + n, accepted + more;
      if !ok {
        removed := removed + gone;
        return;
      }
      OneMoreShard(kept, shard, before, removed, gone);
      removed := removed + gone;
    }
    AllGone(db, rows, db.rows, before, accepted, removed);
  }

  ghost predicate ShardsDone(kept: set<ShortLink>, shards: nat, before: Time, removed: multiset<ShortLink>) {
    forall r :: r in kept && 0 <= Place(r).0 < shards && r.IsExpired(before) ==> r in removed
  }

  lemma OneMoreShard(kept: set<ShortLink>, shard: nat, before: Time, removed: multiset<ShortLink>, gone: multiset<ShortLink>)
    requires ShardsDone(kept, shard, before, removed)
    requires forall r :: r in Rest(kept, removed) && InShard(r, shard) && r.IsExpired(before) ==> r in gone
    ensures ShardsDone(kept, shard + 1, before, removed + gone)
  {
  }

  lemma AllGone(db: Database, was: set<ShortLink>, rows: set<ShortLink>, before: Time, accepted: set<string>,
                removed: multiset<ShortLink>)
    requires TableOk(was) && Removes(Kept(db, was), db.Alone(), was, rows, before, accepted, removed)
    requires ShardsDone(Kept(db, was), SHARD_COUNT, before, removed)
    ensures forall r :: r in Kept(db, was) && r.IsExpired(before) ==> r in removed
    ensures db.Alone() ==> rows == was - ExpiredRows(was, before)
  {
    assert forall r :: r in was ==> 0 <= Place(r).0 < SHARD_COUNT;
    if db.Alone() {
      assert forall r :: r in was ==> db.Keeps(r);
      assert Kept(db, was) == was;
    }
  }

  /** The lazy cleaner's statement. */
  method DeleteExpiredCode(db: Database, code: string, before: Time) returns (ok: bool, deleted: bool)
    requires db.Valid()
    modifies db
    ensures db.Valid()
    ensures IDFromShortCode(code).None? ==> !ok && !deleted && db.rows == old(db.rows)
    ensures IDFromShortCode(code).Some? ==>
              var was := db.others(old(db.statements), old(db.rows));
              && ok == !db.fails(old(db.statements))
              && db.rows == was - (if ok then set r | r in was && r.code == code && r.IsExpired(before) else {})
              && deleted == (db.rows != was)
  {
    deleted := false;
    if IDFromShortCode(code).None? {
      return false, false;
    }
    ok := db.Begin();
    if ok {
      var gone := set r | r in db.rows && r.code == code && r.expireAt != None && r.expireAt.value <= before;
      db.rows := db.rows - gone;
      deleted := gone != {};
    }
  }

  // ------------------------------------------------------- single rows, groups

  /** Inserts one row, unless its code is malformed or a key is taken. */
  method Create(db: Database, item: ShortLink) returns (ok: bool)
    requires db.Valid()
    modifies db
    ensures db.Valid()
    ensures IDFromShortCode(item.code).None? ==> !ok && db.rows == old(db.rows)
    ensures IDFromShortCode(item.code).Some? ==>
              var was := db.others(old(db.statements), old(db.rows));
              && (ok <==> !db.fails(old(db.statements)) && forall r :: r in was ==> r.code != item.code && !SameKey(r, item))
              && db.rows == was + (if ok then {item} else {})
  {
    if IDFromShortCode(item.code).None? {
      return false;
    }
    ok := db.Begin();
    if ok {
      ok := forall r :: r in db.rows ==> r.code != item.code && !SameKey(r, item);
      if ok {
        db.rows := db.rows + {item};
      }
    }
  }

  /** None is a statement error.  Otherwise the answer of the table as the statement found it. */
  method FindActiveByCode(db: Database, code: string, now: Time) returns (r: Option<Lookup>)
    requires db.Valid()
    modifies db
    ensures db.Valid()
    ensures IDFromShortCode(code).Some? ==> db.rows == db.others(old(db.statements), old(db.rows))
    ensures db.statements == old(db.statements) + if IDFromShortCode(code).Some? then 1 else 0
    ensures IDFromShortCode(code).None? ==> db.rows == old(db.rows) && r == Some(InvalidCode)
    ensures IDFromShortCode(code).Some? ==> r == if db.fails(old(db.statements)) then None else Some(DirectLookup(db.rows, code, now))
  {
    if IDFromShortCode(code).None? {
      return Some(InvalidCode);
    }
    var ok := db.Begin();
    if !ok {
      return None;
    }
    if item :| item in db.rows && item.code == code {
      if item.IsExpired(now) {
        return Some(Expired);
      }
      if item.status != STATUS_ACTIVE {
        return Some(NotFound);
      }
      return Some(Found(item));
    }
    return Some(NotFound);
  }

  /** The items of one shard, in their order. */
  function Group(items: seq<ShortLink>, shard: nat): seq<ShortLink> {
    if items == [] then []
    else Group(items[..|items| - 1], shard) + if InShard(items[|items| - 1], shard) then [items[|items| - 1]] else []
  }

  /** Each item goes to the group of its code's shard; the first malformed code stops it. */
  method GroupShortLinksByShard(items: seq<ShortLink>) returns (ok: bool, groups: array<seq<ShortLink>>)
    ensures fresh(groups) && groups.Length == SHARD_COUNT
    ensures ok <==> forall i :: 0 <= i < |items| ==> IDFromShortCode(items[i].code).Some?
    ensures ok ==> forall k :: 0 <= k < SHARD_COUNT ==> groups[k] == Group(items, k)
  {
    groups := new seq<ShortLink>[SHARD_COUNT](_ => []);
    for i := 0 to |items|
      invariant forall j :: 0 <= j < i ==> IDFromShortCode(items[j].code).Some?
      invariant forall k :: 0 <= k < SHARD_COUNT ==> groups[k] == Group(items[..i], k)
    {
      assert items[..i + 1][..i] == items[..i];
      var shard := ShardIndexFromCode(items[i].code);
      if shard.None? {
        return false, groups;
      }
      groups[shard.value] := groups[shard.value] + [items[i]];
      forall k | 0 <= k < SHARD_COUNT
        ensures groups[k] == Group(items[..i + 1], k)
      {
        GroupAppend(items, i, k);
      }
    }
    assert items[..|items|] == items;
    return true, groups;
  }

  /** A group is the subsequence of its shard's items: `p` names their positions, all of them and
      in order. */
  lemma {:induction false} GroupIsSubsequence(items: seq<ShortLink>, shard: nat) returns (p: seq<nat>)
    ensures |p| == |Group(items, shard)| && (forall i, j :: 0 <= i < j < |p| ==> p[i] < p[j])
    ensures forall k :: 0 <= k < |p| ==> p[k] < |items| && Group(items, shard)[k] == items[p[k]]
    ensures forall i :: 0 <= i < |items| ==> (i in p <==> InShard(items[i], shard))
  {
    p := [];
    if items != [] {
      var last: nat := |items| - 1;
      p := GroupIsSubsequence(items[..last], shard);
      if InShard(items[last], shard) {
        p := p + [last];
      }
      forall i | 0 <= i < |items|
        ensures i in p <==> InShard(items[i], shard)
      {
        if i < last {
          assert items[..last][i] == items[i];
        }
      }
    }
  }

  lemma GroupAppend(items: seq<ShortLink>, i: nat, shard: nat)
    requires i < |items|
    ensures Group(items[..i + 1], shard) == Group(items[..i], shard) + if InShard(items[i], shard) then [items[i]] else []
  {
    assert items[..i + 1][..i] == items[..i];
  }

  function GroupSizes(items: seq<ShortLink>, shards: nat): nat {
    if shards == 0 then 0 else GroupSizes(items, shards - 1) + |Group(items, shards - 1)|
  }

  lemma {:induction false} GroupSizesAppend(items: seq<ShortLink>, shards: nat)
    requires items != []
    ensures var last := ShardIndexFromCode(items[|items| - 1].code);
            GroupSizes(items, shards) == GroupSizes(items[..|items| - 1], shards)
              + if last.Some? && last.value < shards then 1 else 0
  {
    if shards > 0 {
      GroupSizesAppend(items, shards - 1);
    }
  }

  /** Grouping loses and duplicates nothing: each group keeps the order of its items, and the
      sizes add up. */
  lemma {:induction false} GroupsPartition(items: seq<ShortLink>)
    requires forall i :: 0 <= i < |items| ==> IDFromShortCode(items[i].code).Some?
    ensures GroupSizes(items, SHARD_COUNT) == |items|
  {
    if items == [] {
      EmptyGroups(SHARD_COUNT);
    } else {
      GroupSizesAppend(items, SHARD_COUNT);
      GroupsPartition(items[..|items| - 1]);
    }
  }

  lemma {:induction false} EmptyGroups(shards: nat)
    ensures GroupSizes([], shards) == 0
  {
    if shards > 0 {
      EmptyGroups(shards - 1);
    }
  }
}
