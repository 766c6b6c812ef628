/** The watch-based service resolver (internal/infrastructure/etcd/resolver.go).

    The registry's history is a sequence of revisions, each the changes of one transaction.
    A snapshot is the registry at some revision; the watch delivers every later revision in
    order.  ResolveNow may install a snapshot at any time, over what the watch has built.
 */
module EtcdResolver {
  import opened Links
  import opened StringOrder

  datatype Change = PutKey(key: string, value: string) | DeleteKey(key: string)

  // ---------------------------------------------------------------- the registry

  /** The keys and raw values after a change. */
  function ApplyRaw(kvs: map<string, string>, c: Change): map<string, string> {
    match c
    case PutKey(key, value) => kvs[key := value]
    case DeleteKey(key) => kvs - {key}
  }

  function RawAfter(kvs: map<string, string>, cs: seq<Change>): map<string, string> {
    if cs == [] then kvs else ApplyRaw(RawAfter(kvs, cs[..|cs| - 1]), cs[|cs| - 1])
  }

  function Flat(history: seq<seq<Change>>): seq<Change> {
    if history == [] then [] else Flat(history[..|history| - 1]) + history[|history| - 1]
  }

  /** The registry at a revision. */
  function RawAt(history: seq<seq<Change>>, revision: nat): map<string, string>
    requires revision <= |history|
  {
    RawAfter(map[], Flat(history[..revision]))
  }

  /** The instances a resolver ought to know: blank addresses do not count. */
  function View(kvs: map<string, string>): map<string, string> {
    map key | key in kvs && TrimSpace(kvs[key]) != "" :: TrimSpace(kvs[key])
  }

  function Truth(history: seq<seq<Change>>, revision: nat): map<string, string>
    requires revision <= |history|
  {
    View(RawAt(history, revision))
  }

  /** The registry holds under a key the value of the last change of the key, if that is a put. */
  lemma {:induction false} RegistryHoldsLatestPut(cs: seq<Change>, key: string) returns (k: nat)
    ensures if key in RawAfter(map[], cs) then
              && k < |cs| && cs[k] == PutKey(key, RawAfter(map[], cs)[key])
              && forall j :: k < j < |cs| ==> cs[j].key != key
            else Untouched(cs, key) || (k < |cs| && cs[k] == DeleteKey(key) && forall j :: k < j < |cs| ==> cs[j].key != key)
  {
    k := 0;
    if cs != [] {
      var last: nat := |cs| - 1;
      if cs[last].key == key {
        k := last;
      } else {
        k := RegistryHoldsLatestPut(cs[..last], key);
      }
    }
  }

  predicate Untouched(cs: seq<Change>, key: string) {
    forall j :: 0 <= j < |cs| ==> cs[j].key != key
  }

  /** An instance is known under the keys whose value is not all white space, with that value less
      the white space around it. */
  lemma InstancesAreTrimmed(kvs: map<string, string>, key: string) returns (i: nat, j: nat)
    ensures key in View(kvs) <==> key in kvs && exists k :: 0 <= k < |kvs[key]| && !IsSpace(kvs[key][k])
    ensures key in View(kvs) ==>
              && i < j <= |kvs[key]| && View(kvs)[key] == kvs[key][i..j]
              && !IsSpace(kvs[key][i]) && !IsSpace(kvs[key][j - 1])
              && (forall k :: 0 <= k < i ==> IsSpace(kvs[key][k])) && (forall k :: j <= k < |kvs[key]| ==> IsSpace(kvs[key][k]))
  {
    i, j := 0, 0;
    if key in kvs {
      i, j := TrimSpaceExactly(kvs[key]);
    }
  }

  // ---------------------------------------------------------------- the resolver

  /** One watch event, as the loop applies it. */
  function Apply(instances: map<string, string>, c: Change): map<string, string> {
    match c
    case PutKey(key, value) =>
      if TrimSpace(value) == "" then instances - {key} else instances[key := TrimSpace(value)]
    case DeleteKey(key) => instances - {key}
  }

  function Replay(instances: map<string, string>, cs: seq<Change>): map<string, string> {
    if cs == [] then instances else Apply(Replay(instances, cs[..|cs| - 1]), cs[|cs| - 1])
  }

  lemma {:induction false} ReplayFollowsRegistry(kvs: map<string, string>, cs: seq<Change>)
    ensures Replay(View(kvs), cs) == View(RawAfter(kvs, cs))
  {
    if cs != [] {
      ReplayFollowsRegistry(kvs, cs[..|cs| - 1]);
    }
  }

  lemma {:induction false} RawAppend(kvs: map<string, string>, a: seq<Change>, b: seq<Change>)
    ensures RawAfter(kvs, a + b) == RawAfter(RawAfter(kvs, a), b)
  {
    if b == [] {
      assert a + b == a;
    } else {
      RawAppend(kvs, a, b[..|b| - 1]);
      assert (a + b)[..|a + b| - 1] == a + b[..|b| - 1];
    }
  }

  lemma {:induction false} ReplayAppend(m: map<string, string>, a: seq<Change>, b: seq<Change>)
    ensures Replay(m, a + b) == Replay(Replay(m, a), b)
  {
    if b == [] {
      assert a + b == a;
    } else {
      ReplayAppend(m, a, b[..|b| - 1]);
      assert (a + b)[..|a + b| - 1] == a + b[..|b| - 1];
    }
  }

  lemma {:induction false} FlatAppend(a: seq<seq<Change>>, b: seq<seq<Change>>)
    ensures Flat(a + b) == Flat(a) + Flat(b)
  {
    if b == [] {
      assert a + b == a;
    } else {
      FlatAppend(a, b[..|b| - 1]);
      assert (a + b)[..|a + b| - 1] == a + b[..|b| - 1];
    }
  }

  predicate AgreeAt(m: map<string, string>, n: map<string, string>, key: string) {
    (key in m <==> key in n) && (key in m ==> m[key] == n[key])
  }

  predicate Touches(cs: seq<Change>, key: string) {
    exists c :: c in cs && c.key == key
  }

  /** Where two maps agree before a replay, or the replay touches the key, they agree after. */
  lemma {:induction false} ReplayAgrees(m: map<string, string>, n: map<string, string>, cs: seq<Change>, key: string)
    requires AgreeAt(m, n, key) || Touches(cs, key)
    ensures AgreeAt(Replay(m, cs), Replay(n, cs), key)
  {
    if cs != [] {
      var before, last := cs[..|cs| - 1], cs[|cs| - 1];
      if last.key != key {
        if !AgreeAt(m, n, key) {
          var c :| c in cs && c.key == key;
          assert c in before;
        }
        ReplayAgrees(m, n, before, key);
      }
    }
  }

  lemma {:induction false} ReplayLeaves(m: map<string, string>, cs: seq<Change>, key: string)
    requires !Touches(cs, key)
    ensures AgreeAt(Replay(m, cs), m, key)
  {
    if cs != [] {
      var before := cs[..|cs| - 1];
      assert forall c :: c in before ==> c in cs;
      assert cs[|cs| - 1] in cs;
      ReplayLeaves(m, before, key);
    }
  }

  lemma SameMaps(m: map<string, string>, n: map<string, string>)
    requires forall key :: AgreeAt(m, n, key)
    ensures m == n
  {
    assert forall key :: AgreeAt(m, n, key) ==> (key in m <==> key in n);
  }

  /** Replaying changes over the state they lead to changes nothing in the end. */
  lemma ReplayIsIdempotent(m: map<string, string>, cs: seq<Change>)
    ensures Replay(Replay(m, cs), cs) == Replay(m, cs)
  {
    var n := Replay(m, cs);
    forall key
      ensures AgreeAt(Replay(n, cs), n, key)
    {
      if Touches(cs, key) {
        ReplayAgrees(n, m, cs, key);
      } else {
        ReplayLeaves(n, cs, key);
      }
    }
    SameMaps(Replay(n, cs), n);
  }

  lemma TruthMoves(history: seq<seq<Change>>, p: nat, q: nat)
    requires p <= q <= |history|
    ensures Truth(history, q) == Replay(Truth(history, p), Flat(history[p..q]))
  {
    assert history[..q] == history[..p] + history[p..q];
    FlatAppend(history[..p], history[p..q]);
    RawAppend(map[], Flat(history[..p]), Flat(history[p..q]));
    ReplayFollowsRegistry(RawAt(history, p), Flat(history[p..q]));
  }

  /** Convergence: a snapshot of revision q installed when the watch has applied revision
      p <= q, followed by all revisions up to some n >= q, yields the registry at n. */
  lemma ReplayConverges(history: seq<seq<Change>>, p: nat, q: nat, n: nat)
    requires p <= q <= n <= |history|
    ensures Replay(Truth(history, q), Flat(history[p..n])) == Truth(history, n)
  {
    assert history[p..n] == history[p..q] + history[q..n];
    FlatAppend(history[p..q], history[q..n]);
    ReplayAppend(Truth(history, q), Flat(history[p..q]), Flat(history[q..n]));
    TruthMoves(history, p, q);
    ReplayIsIdempotent(Truth(history, p), Flat(history[p..q]));
    TruthMoves(history, q, n);
  }

  /** For any snapshot, stale ones included: installed over a watch at position p, a snapshot of
      revision q leads to the registry at n if and only if the registry had, at q and at p, the
      same entry under every key that no revision after p up to n touches. */
  lemma ConvergesExactlyWhen(history: seq<seq<Change>>, p: nat, q: nat, n: nat)
    requires p <= n <= |history| && q <= n
    ensures Replay(Truth(history, q), Flat(history[p..n])) == Truth(history, n) <==>
              forall key :: !Touches(Flat(history[p..n]), key) ==> AgreeAt(Truth(history, q), Truth(history, p), key)
  {
    var cs, a, b := Flat(history[p..n]), Truth(history, q), Truth(history, p);
    TruthMoves(history, p, n);
    forall key
      ensures Touches(cs, key) ==> AgreeAt(Replay(a, cs), Replay(b, cs), key)
      ensures !Touches(cs, key) ==> (AgreeAt(Replay(a, cs), Replay(b, cs), key) <==> AgreeAt(a, b, key))
    {
      if Touches(cs, key) {
        ReplayAgrees(a, b, cs, key);
      } else {
        ReplayLeaves(a, cs, key);
        ReplayLeaves(b, cs, key);
      }
    }
    if forall key :: !Touches(cs, key) ==> AgreeAt(a, b, key) {
      SameMaps(Replay(a, cs), Replay(b, cs));
    }
  }

  /** A snapshot installed after the watch has passed its revision loses events for good:
      here the watch has applied a first registration, the snapshot is from before it. */
  lemma StaleSnapshotLosesEvents(key: string, value: string)
    requires TrimSpace(value) != ""
    ensures var history := [[PutKey(key, value)]];
            Replay(Truth(history, 0), Flat(history[1..1])) != Truth(history, 1)
  {
    var history := [[PutKey(key, value)]];
    assert history[..1] == history && history[..0] == [] && history[1..1] == [];
    TruthMoves(history, 0, 1);
    assert Flat(history[0..1]) == Flat([]) + [PutKey(key, value)] == [PutKey(key, value)];
    assert Truth(history, 0) == map[];
    assert key in Replay(map[], [PutKey(key, value)]);
  }

  /** The resolver object.  `position` is the last revision the watch has applied, `installed`
      the revision of the latest snapshot and `since` the position it was installed at. */
  class WatchResolver {
    var instances: map<string, string>
    ghost const history: seq<seq<Change>>
    ghost var position: nat
    ghost var installed: nat
    ghost var since: nat

    ghost predicate Valid()
      reads this
    {
      && installed <= |history| && since <= position <= |history|
      && instances == Replay(Truth(history, installed), Flat(history[since..position]))
    }

    /** The watch has reached the snapshot's revision, and every key that it has not touched
        since the snapshot was installed had the same entry there as at the watch's position
        of that time. */
    ghost predicate CaughtUp()
      reads this
      requires Valid()
    {
      installed <= position &&
      forall key :: !Touches(Flat(history[since..position]), key) ==>
        AgreeAt(Truth(history, installed), Truth(history, since), key)
    }

    /** A caught-up resolver knows the registry as it is at the watch's position; no other does,
        once the watch has reached the snapshot.  A snapshot that was not behind the watch is
        always caught up with. */
    lemma KnowsTheTruth()
      requires Valid() && installed <= position
      ensures instances == Truth(history, position) <==> CaughtUp()
      ensures since <= installed ==> CaughtUp()
    {
      ConvergesExactlyWhen(history, since, installed, position);
      if since <= installed {
        ReplayConverges(history, since, installed, position);
      }
    }

    /** Build: the first snapshot, and the watch starting just behind it. */
    constructor (ghost history: seq<seq<Change>>, kvs: map<string, string>, ghost revision: nat)
      requires revision <= |history| && kvs == RawAt(history, revision)
      ensures Valid() && this.history == history && position == revision && instances == Truth(history, revision)
    {
      this.history := history;
      position, installed, since := revision, revision, revision;
      instances := map key | key in kvs && TrimSpace(kvs[key]) != "" :: TrimSpace(kvs[key]);
      assert history[revision..revision] == [];
    }

    /** resolveNow, with a snapshot from before or after the watch's position. */
    method ResolveNow(kvs: map<string, string>, ghost revision: nat)
      requires Valid() && revision <= |history| && kvs == RawAt(history, revision)
      modifies this
      ensures Valid() && installed == revision && since == position == old(position)
      ensures instances == Truth(history, revision)
    {
      var next: map<string, string> := map[];
      var rest := kvs.Keys;
      while rest != {}
        invariant rest <= kvs.Keys
        invariant next == View(map key | key in kvs && key !in rest :: kvs[key])
        decreases rest
      {
        var key :| key in rest;
        var addr := TrimSpace(kvs[key]);
        if addr != "" {
          next := next[key := addr];
        }
        rest := rest - {key};
      }
      assert (map key | key in kvs && key !in rest :: kvs[key]) == kvs;
      instances := next;
      installed, since := revision, position;
      assert history[since..position] == [];
    }

    /** The loop over the events of a response. */
    method ApplyEvents(events: seq<Change>)
      modifies this`instances
      ensures instances == Replay(old(instances), events)
    {
      for i := 0 to |events|
        invariant instances == Replay(old(instances), events[..i])
      {
        assert events[..i + 1][..i] == events[..i];
        match events[i]
        case PutKey(key, value) =>
          var addr := TrimSpace(value);
          if addr == "" {
            instances := instances - {key};
          } else {
            instances := instances[key := addr];
          }
        case DeleteKey(key) =>
          instances := instances - {key};
      }
      assert events[..|events|] == events;
    }

    /** One watch response: the events of the next revisions. */
    method HandleResponse(events: seq<Change>, ghost upTo: nat)
      requires Valid() && position <= upTo <= |history| && events == Flat(history[position..upTo])
      modifies this
      ensures Valid() && position == upTo && installed == old(installed) && since == old(since)
      ensures installed <= position ==> (instances == Truth(history, position) <==> CaughtUp())
      ensures since <= installed <= position ==> CaughtUp()
    {
      ApplyEvents(events);
      assert history[since..upTo] == history[since..position] + history[position..upTo];
      FlatAppend(history[since..position], history[position..upTo]);
      ReplayAppend(Truth(history, installed), Flat(history[since..position]), events);
      position := upTo;
      if installed <= position {
        KnowsTheTruth();
      }
    }

    /** The addresses handed to the client connection: each registered value once, in byte
        order, and those of the registry itself when the resolver is caught up. */
    method Addresses() returns (addrs: seq<string>)
      requires Valid()
      ensures addrs == Listing(instances.Values)
      ensures CaughtUp() ==> addrs == Listing(Truth(history, position).Values)
    {
      var rest := instances.Keys;
      var seen: set<string> := {};
      addrs := [];
      while rest != {}
        invariant rest <= instances.Keys
        invariant forall a :: a in seen <==> a in addrs
        invariant forall a :: a in seen <==> exists key :: key in instances && key !in rest && instances[key] == a
        invariant NoRepeats(addrs)
        decreases rest
      {
        var key :| key in rest;
        var addr := instances[key];
        rest := rest - {key};
        if addr !in seen {
          seen := seen + {addr};
          addrs := addrs + [addr];
        }
      }
      SortSorts(addrs);
      addrs := Sort(addrs);
      SortedListsAgree(addrs, Listing(instances.Values));
      if CaughtUp() {
        KnowsTheTruth();
      }
    }
  }
}
