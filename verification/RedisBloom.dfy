/** The filter's own code, running against a Redis server that no one else writes to
    (internal/infrastructure/filter/bloom.go).  BloomProtocol has the same commands
    interleaved with any number of others.
 */
module RedisBloom {
  import opened Options
  import opened Base62
  import opened Links
  import opened Tables
  import opened RedisStore
  import opened Repository
  import Protocol = BloomProtocol

  /** Nonempty values, each where it first occurs. */
  function Deduped(values: seq<string>): seq<string> {
    if values == [] then []
    else
      var before, last := Deduped(values[..|values| - 1]), values[|values| - 1];
      if last == "" || last in before then before else before + [last]
  }

  method DedupeStrings(values: seq<string>) returns (deduped: seq<string>)
    ensures deduped == Deduped(values)
  {
    var seen: set<string> := {};
    deduped := [];
    for i := 0 to |values|
      invariant deduped == Deduped(values[..i])
      invariant forall v :: v in seen <==> v in deduped
    {
      assert values[..i + 1][..i] == values[..i];
      if values[i] != "" && values[i] !in seen {
        seen := seen + {values[i]};
        deduped := deduped + [values[i]];
      }
    }
    assert values[..|values|] == values;
  }

  /** No value twice, none lost but the empty one, and the first occurrences in order: any
      prefix of the input dedupes to a prefix of the result. */
  lemma {:induction false} DedupedKeeps(values: seq<string>, k: nat)
    requires k <= |values|
    ensures forall i, j :: 0 <= i < j < |Deduped(values)| ==> Deduped(values)[i] != Deduped(values)[j]
    ensures forall v :: v in Deduped(values) <==> v in values && v != ""
    ensures Deduped(values[..k]) <= Deduped(values)
  {
    if values != [] {
      var before := values[..|values| - 1];
      DedupedKeeps(before, if k == |values| then k - 1 else k);
      assert forall v :: v in values <==> v in before || v == values[|values| - 1];
      if k < |values| {
        assert before[..k] == values[..k];
      } else {
        assert values[..k] == values;
      }
    }
  }

  function AddToAll(store: Redis, keys: seq<string>, code: string): Redis {
    if keys == [] then store else AddToAll(store, keys[..|keys| - 1], code).Add(keys[|keys| - 1], {code})
  }

  datatype RebuildEnd = Swapped | NotMarked | NotReserved | NotScanned | NotFinished

  /** A server after a rebuild alone: the main filter has been replaced, the marker is gone. */
  function Rebuilt(store: Redis, key: string, codes: set<string>): Redis {
    Redis(None, store.filters[key := codes])
  }

  lemma RebuildStores(store: Redis, key: string, temp: string, codes: set<string>)
    requires temp != key && temp !in store.filters
    ensures var scanned := AddCodes(store.SetMarker(temp).Reserve(temp), temp, codes);
            && scanned.marker == Some(temp) && scanned.filters == store.filters[temp := codes]
            && scanned.FinishScript(key, temp) == Rebuilt(store, key, codes)
  {
    var scanned := AddCodes(store.SetMarker(temp).Reserve(temp), temp, codes);
    assert {} + codes == codes;
    assert scanned.filters == store.filters[temp := codes];
    assert store.filters[temp := codes] - {temp} == store.filters;
  }

  class Bloom {
    const server: RedisServer
    const key: string

    constructor (server: RedisServer, key: string)
      ensures this.server == server && this.key == if key == "" then "flashlink:filter:codes" else key
    {
      this.server := server;
      this.key := if key == "" then "flashlink:filter:codes" else key;
    }

    method AddKeys() returns (ok: bool, keys: seq<string>)
      modifies server
      ensures server.store == old(server.store) && (!ok ==> server.LastFailed())
      ensures ok ==> keys == KeysFor(key, server.store.marker)
    {
      keys := [];
      ok := server.Perform(server.store);
      if !ok {
        return;
      }
      match server.store.marker
      case None => keys := [key];
      case Some(temp) => keys := if temp == "" then [key] else [key, temp];
    }

    /** On an error the keys before the failing one have the code already. */
    method AddToKeys(keys: seq<string>, code: string) returns (ok: bool)
      modifies server
      ensures exists k: nat :: k <= |Deduped(keys)| && server.store == AddToAll(old(server.store), Deduped(keys)[..k], code)
                && (ok <==> k == |Deduped(keys)|)
      ensures !ok ==> server.LastFailed()
    {
      var unique := DedupeStrings(keys);
      for k := 0 to |unique|
        invariant server.store == AddToAll(old(server.store), unique[..k], code)
      {
        ok := server.Perform(server.store.Add(unique[k], {code}));
        if !ok {
          return;
        }
        assert unique[..k + 1][..k] == unique[..k];
      }
      return true;
    }

    /** Success puts the code under the main key and under the key of a rebuild in progress;
        in any case no filter loses anything. */
    method Add(code: string) returns (ok: bool)
      requires key != ""
      modifies server
      ensures ok ==> code in server.store.Filter(key)
      ensures ok && server.store.marker.Some? && server.store.marker.value != "" ==>
                code in server.store.Filter(server.store.marker.value)
      ensures !ok ==> server.LastFailed()
      ensures forall k :: code in server.store.Filter(k) ==> code in old(server.store.Filter(k)) || code in server.store.Filter(key)
      ensures server.store.marker == old(server.store.marker)
      ensures forall k :: old(server.store.Filter(k)) <= server.store.Filter(k) <= old(server.store.Filter(k)) + {code}
    {
      var keys;
      ok, keys := AddKeys();
      if !ok {
        return;
      }
      DedupedKeeps(keys, 0);
      ok := AddToKeys(keys, code);
      ghost var k: nat :| k <= |Deduped(keys)| && server.store == AddToAll(old(server.store), Deduped(keys)[..k], code)
                && (ok <==> k == |Deduped(keys)|);
      AddToAllAdds(old(server.store), Deduped(keys)[..k], code);
      if ok {
        assert Deduped(keys)[..k] == Deduped(keys);
      }
    }

    /** Alone, a Rebuild that returns success has replaced the main filter by exactly the
        codes its scan handed over, and one that fails has left the main filter alone.  `end`
        says where it failed: after an error of the reservation it has sent the deletion of the
        marker, after one of the scan those of the temp key and of the marker, in this order. */
    method Rebuild(db: Database, now: Time, batchSize: int, temp: string)
      returns (ok: bool, ghost handed: seq<ShortLink>, ghost end: RebuildEnd)
      requires db.Valid() && temp != key && temp !in server.store.filters
      modifies server, db
      ensures db.Valid() && (db.Alone() ==> db.rows == old(db.rows))
      ensures forall r :: r in old(db.rows) && db.Keeps(r) ==> r in db.rows
      ensures ok <==> end == Swapped
      ensures ok ==> server.store == Rebuilt(old(server.store), key, CodeSet(handed))
      ensures !ok ==> server.store.Filter(key) == old(server.store.Filter(key))
      ensures end == NotMarked ==> server.LastFailed() && server.store == old(server.store)
      ensures end == NotReserved ==>
                && server.commands == old(server.commands) + 3 && server.fails(old(server.commands) + 1)
                && server.store.filters == old(server.store.filters)
                && (server.fails(old(server.commands) + 2) || server.store.marker == None)
      ensures end == NotScanned ==>
                && server.commands >= old(server.commands) + 4
                && (server.fails(server.commands - 2) || server.store.filters == old(server.store.filters))
                && (server.fails(server.commands - 1) || server.store.marker == None)
                && (db.LastFailed() || server.fails(server.commands - 3))
      ensures end == NotFinished ==> server.LastFailed()
      ensures forall k :: k != key && k != temp ==> server.store.Filter(k) == old(server.store.Filter(k))
      ensures forall r :: r in handed ==> r.IsActive(now) && (db.Alone() ==> r in db.rows)
      ensures ok || end == NotFinished ==> forall r :: r in old(db.rows) && db.Keeps(r) && r.IsActive(now) && r.id != 0 ==> r in handed
      ensures !ok ==> db.LastFailed() || server.FailedSince(old(server.commands))
    {
      handed := [];
      ok, end := Mark(temp);
      if !ok {
        return;
      }
      ghost var first := server.commands;
      ok, handed := ListActiveCodes(db, now, batchSize, server, temp);
      RebuildStores(old(server.store), key, temp, CodeSet(handed));
      if !ok {
        end := NotScanned;
        assert db.LastFailed() || server.FailedSince(first) by {
          assert server.LastFailed() && server.commands > first ==> server.fails(server.commands - 1);
        }
        ok := CleanUp(temp);
        assert old(server.store.filters)[temp := CodeSet(handed)] - {temp} == old(server.store.filters);
        return;
      }
      ok := server.Perform(server.store.FinishScript(key, temp));
      end := if ok then Swapped else NotFinished;
      assert !ok ==> server.fails(server.commands - 1);
    }

    /** The marker, then the temp key; an error of the second takes the marker back. */
    method Mark(temp: string) returns (ok: bool, ghost end: RebuildEnd)
      modifies server
      ensures ok <==> end == Swapped
      ensures ok ==> server.commands == old(server.commands) + 2 && server.store == old(server.store).SetMarker(temp).Reserve(temp)
      ensures !ok ==> (end == NotMarked || end == NotReserved) && server.FailedSince(old(server.commands))
      ensures end == NotMarked ==> server.LastFailed() && server.store == old(server.store)
      ensures end == NotReserved ==>
                && server.commands == old(server.commands) + 3 && server.fails(old(server.commands) + 1)
                && server.store.filters == old(server.store.filters)
                && (server.fails(old(server.commands) + 2) || server.store.marker == None)
    {
      end := NotMarked;
      ok := server.Perform(server.store.SetMarker(temp));
      if !ok {
        assert server.fails(old(server.commands));
        return;
      }
      ok := server.Perform(server.store.Reserve(temp));
      if !ok {
        end := NotReserved;
        assert server.fails(old(server.commands) + 1);
        var _ := server.Perform(server.store.DelMarker());
        return;
      }
      end := Swapped;
    }

    /** After a failed scan. */
    method CleanUp(temp: string) returns (ok: bool)
      modifies server
      ensures !ok && server.commands == old(server.commands) + 2
      ensures server.store.filters == if server.fails(old(server.commands)) then old(server.store.filters) else old(server.store.filters) - {temp}
      ensures server.store.marker == if server.fails(old(server.commands) + 1) then old(server.store.marker) else None
    {
      var _ := server.Perform(server.store.Del(temp));
      var _ := server.Perform(server.store.DelMarker());
      return false;
    }
  }

  lemma {:induction false} AddToAllAdds(store: Redis, keys: seq<string>, code: string)
    ensures AddToAll(store, keys, code).marker == store.marker
    ensures forall k :: AddToAll(store, keys, code).Filter(k) == store.Filter(k) + if k in keys then {code} else {}
  {
    if keys != [] {
      AddToAllAdds(store, keys[..|keys| - 1], code);
    }
  }

  /** The keys addKeys returns for a marker. */
  function KeysFor(main: string, marker: Option<string>): seq<string> {
    [main] + if marker.Some? && marker.value != "" then [marker.value] else []
  }

  lemma KeysAdded(store: Redis, main: string, temp: Option<string>, code: string)
    requires main != "" && temp != Some(main) && temp != Some("")
    ensures AddToAll(store, Deduped(KeysFor(main, temp)), code) ==
              if temp.Some? then store.Add(main, {code}).Add(temp.value, {code}) else store.Add(main, {code})
  {
    assert [main][..0] == [];
    assert Deduped([main]) == [main] && KeysFor(main, None) == [main];
    assert AddToAll(store, [], code) == store && AddToAll(store, [main], code) == store.Add(main, {code});
    if temp.Some? {
      var keys := [main, temp.value];
      assert keys[..1] == [main];
      assert Deduped(keys) == keys && KeysFor(main, temp) == keys;
    }
  }

  /** An Add that nothing interrupts is the protocol's run of GET, BF.ADD main and, with a
      rebuild in progress, BF.ADD temp: both leave the same server behind. */
  lemma AddFollowsProtocol(s: Protocol.State, id: uint64) returns (es: seq<Protocol.Event>)
    requires Protocol.Sound(s) && id in s.adders && s.adders[id].phase == Protocol.Committed
    ensures Protocol.Runs(s, es)
    ensures var t := Protocol.Exec(s, es);
            && id in t.adders && t.adders[id].phase.Added?
            && t.redis == AddToAll(s.redis, Deduped(KeysFor(Protocol.MAIN, s.redis.marker)), s.adders[id].row.code)
  {
    KeysAdded(s.redis, Protocol.MAIN, s.redis.marker, s.adders[id].row.code);
    es := [];
    Protocol.Append(s, es, Protocol.GetMarker(id));
    es := es + [Protocol.GetMarker(id)];
    Protocol.Append(s, es, Protocol.AddMain(id));
    es := es + [Protocol.AddMain(id)];
    if s.redis.marker.Some? {
      Protocol.Append(s, es, Protocol.AddTemp(id));
      es := es + [Protocol.AddTemp(id)];
    }
  }

  // ------------------------------------------- a rebuild that nothing interrupts

  /** All rows were committed before the marker was written, and the scan, which reads at the
      present time, has handed over and has in hand active rows only. */
  ghost predicate Undisturbed(s: Protocol.State, temp: string)
    requires temp in s.rebuilders
  {
    var r := s.rebuilders[temp];
    && (forall row :: row in s.table ==> row.id in r.base)
    && s.redis.Filter(temp) <= ActiveCodes(s.table, s.clock)
    && (r.phase.Scanning? || r.phase.PageRead? ==> r.phase.now == s.clock)
    && (r.phase.PageRead? ==> CodeSet(r.phase.page) <= ActiveCodes(s.table, s.clock))
  }

  /** Nothing but this rebuild, its temp filter and the marker has changed. */
  predicate Beside(s: Protocol.State, t: Protocol.State, temp: string) {
    s.table == t.table && s.clock == t.clock && s.redis.filters - {temp} == t.redis.filters - {temp}
  }

  lemma OwnStepKeeps(s: Protocol.State, e: Protocol.Event, temp: string)
    requires Protocol.Live(s, temp) && Undisturbed(s, temp)
    requires Protocol.Enabled(s, e) && Protocol.OwnStep(e, temp) && !e.Finish?
    ensures var t := Protocol.Step(s, e); temp in t.rebuilders && Undisturbed(t, temp) && Beside(s, t, temp)
  {
    if e.ReadPage? {
      var p := s.rebuilders[temp].phase;
      forall r | r in e.page
        ensures r.code in ActiveCodes(s.table, s.clock)
      {
        assert r in ActiveAfter(s.table, p.shard, p.lastID, p.now);
      }
    }
  }

  lemma FinishReplaces(s: Protocol.State, temp: string)
    requires Protocol.Sound(s) && Protocol.Live(s, temp) && Undisturbed(s, temp) && Protocol.Enabled(s, Protocol.Finish(temp))
    ensures var t := Protocol.Step(s, Protocol.Finish(temp));
            && t.rebuilders[temp].phase == Protocol.Won
            && t.redis == Redis(None, (s.redis.filters - {temp})[Protocol.MAIN := ActiveCodes(s.table, s.clock)])
  {
    assert Protocol.ScanOk(s, temp, s.rebuilders[temp]);
    forall r | r in s.table && r.IsActive(s.clock)
      ensures r.code in s.redis.Filter(temp)
    {
      assert !Protocol.Ahead(s.rebuilders[temp].phase, s.rebuilders[temp].batch, r);
    }
    assert s.redis.Filter(temp) == ActiveCodes(s.table, s.clock);
  }

  lemma {:induction false} RunsToTheEnd(s: Protocol.State, temp: string) returns (es: seq<Protocol.Event>)
    requires Protocol.Sound(s) && Protocol.Live(s, temp) && Undisturbed(s, temp)
    ensures Protocol.Runs(s, es) && forall e :: e in es ==> Protocol.OwnStep(e, temp)
    ensures var t := Protocol.Exec(s, es);
            && temp in t.rebuilders && t.rebuilders[temp].phase == Protocol.Won
            && t.redis == Redis(None, (s.redis.filters - {temp})[Protocol.MAIN := ActiveCodes(s.table, s.clock)])
    decreases Protocol.StepsLeft(s.rebuilders[temp].phase)
  {
    var e := Protocol.NeverStuck(s, temp);
    var t := Protocol.Step(s, e);
    if e.Finish? {
      FinishReplaces(s, temp);
      es := [e];
      assert es[1..] == [] && Protocol.Exec(t, []) == t;
    } else {
      OwnStepKeeps(s, e, temp);
      Protocol.KeepsSound(s, e);
      Protocol.UndisturbedStep(s, e, temp);
      NotWonYet(s, e, temp);
      es := RunsToTheEnd(t, temp);
      es := [e] + es;
      assert (s.redis.filters - {temp}) == (t.redis.filters - {temp});
    }
  }

  lemma NotWonYet(s: Protocol.State, e: Protocol.Event, temp: string)
    requires Protocol.Enabled(s, e) && Protocol.OwnStep(e, temp) && !e.Finish? && Protocol.Live(s, temp)
    ensures Protocol.Step(s, e).rebuilders[temp].phase != Protocol.Won
  {
  }

  /** A Rebuild that nothing interrupts is a run of the protocol's events of that rebuild,
      none of them an error: it wins, and leaves the server that Rebuild leaves. */
  lemma RebuildFollowsProtocol(s: Protocol.State, temp: string, batch: int) returns (es: seq<Protocol.Event>)
    requires Protocol.Sound(s) && Protocol.Enabled(s, Protocol.SetMarker(temp, batch))
    ensures Protocol.Runs(s, es) && forall e :: e in es ==> Protocol.OwnStep(e, temp)
    ensures var t := Protocol.Exec(s, es);
            && temp in t.rebuilders && t.rebuilders[temp].phase == Protocol.Won
            && t.redis == Rebuilt(s.redis, Protocol.MAIN, ActiveCodes(s.table, s.clock))
  {
    var mark := Protocol.SetMarker(temp, batch);
    var m := Protocol.Step(s, mark);
    Protocol.KeepsSound(s, mark);
    assert temp !in s.redis.filters;
    es := RunsToTheEnd(m, temp);
    es := [mark] + es;
    assert s.redis.filters - {temp} == s.redis.filters;
  }
}
