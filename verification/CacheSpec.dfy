/** What the local cache computes, as functions on its recency list, most recent first
    (internal/infrastructure/cache/local.go), and what holds of every trace of operations.
 */
module CacheSpec {
  import opened Options
  import opened Links

  /** A deadline of zero (Go's zero time) never passes. */
  datatype Entry = Entry(code: string, value: ShortLink, expireAt: Time) {
    predicate Dead(now: Time) {
      expireAt != 0 && expireAt <= now
    }
  }

  /** The clock readings an operation makes are part of it; Set makes a second one if it evicts. */
  datatype Op =
    | Get(code: string, now: Time)
    | Set(item: ShortLink, ttl: int, now: Time, evictNow: Time)
    | Delete(codes: seq<string>)

  // ------------------------------------------------------------ the functions

  function Lookup(c: seq<Entry>, code: string): Option<Entry> {
    if c == [] then None else if c[0].code == code then Some(c[0]) else Lookup(c[1..], code)
  }

  function Without(c: seq<Entry>, code: string): seq<Entry> {
    if c == [] then []
    else if c[0].code == code then Without(c[1..], code)
    else [c[0]] + Without(c[1..], code)
  }

  /** The least recently used dead entry. */
  function LastDead(c: seq<Entry>, now: Time): Option<string> {
    if c == [] then None
    else if LastDead(c[1..], now).Some? then LastDead(c[1..], now)
    else if c[0].Dead(now) then Some(c[0].code)
    else None
  }

  function Victim(c: seq<Entry>, now: Time): string
    requires c != []
  {
    match LastDead(c, now)
    case Some(code) => code
    case None => c[|c| - 1].code
  }

  function GetHit(c: seq<Entry>, code: string, now: Time): Option<ShortLink> {
    match Lookup(c, code)
    case None => None
    case Some(e) => if e.Dead(now) then None else Some(e.value)
  }

  function AfterGet(c: seq<Entry>, code: string, now: Time): seq<Entry> {
    match Lookup(c, code)
    case None => c
    case Some(e) => if e.Dead(now) then Without(c, code) else [e] + Without(c, code)
  }

  function NewEntry(item: ShortLink, ttl: int, now: Time): Entry {
    Entry(item.code, item, if ttl > 0 then now + ttl else 0)
  }

  function MakeRoom(c: seq<Entry>, capacity: nat, now: Time): seq<Entry> {
    if |c| >= capacity && c != [] then Without(c, Victim(c, now)) else c
  }

  function AfterSet(c: seq<Entry>, capacity: nat, item: ShortLink, ttl: int, now: Time, evictNow: Time): seq<Entry> {
    var e := NewEntry(item, ttl, now);
    if Lookup(c, item.code).Some? then [e] + Without(c, item.code)
    else [e] + MakeRoom(c, capacity, evictNow)
  }

  function AfterDelete(c: seq<Entry>, codes: seq<string>): seq<Entry> {
    if codes == [] then c else Without(AfterDelete(c, codes[..|codes| - 1]), codes[|codes| - 1])
  }

  function Apply(c: seq<Entry>, capacity: nat, op: Op): seq<Entry> {
    match op
    case Get(code, now) => AfterGet(c, code, now)
    case Set(item, ttl, now, evictNow) => AfterSet(c, capacity, item, ttl, now, evictNow)
    case Delete(codes) => AfterDelete(c, codes)
  }

  /** The cache after a trace of operations, from empty. */
  function Replay(capacity: nat, ops: seq<Op>): seq<Entry> {
    if ops == [] then [] else Apply(Replay(capacity, ops[..|ops| - 1]), capacity, ops[|ops| - 1])
  }

  // -------------------------------------------------------- laws of Without

  predicate Distinct(c: seq<Entry>) {
    forall i, j :: 0 <= i < j < |c| ==> c[i].code != c[j].code
  }

  lemma {:induction false} LookupIn(c: seq<Entry>, code: string)
    ensures Lookup(c, code).Some? ==> Lookup(c, code).value in c && Lookup(c, code).value.code == code
    ensures Lookup(c, code).None? ==> forall e :: e in c ==> e.code != code
  {
    if c != [] {
      LookupIn(c[1..], code);
    }
  }

  lemma {:induction false} WithoutKeepsOthers(c: seq<Entry>, code: string)
    ensures forall e :: e in Without(c, code) <==> e in c && e.code != code
  {
    if c != [] {
      WithoutKeepsOthers(c[1..], code);
    }
  }

  lemma {:induction false} WithoutAbsent(c: seq<Entry>, code: string)
    requires forall e :: e in c ==> e.code != code
    ensures Without(c, code) == c
  {
    if c != [] {
      assert c[0] in c;
      WithoutAbsent(c[1..], code);
    }
  }

  lemma {:induction false} WithoutShrinks(c: seq<Entry>, code: string)
    requires Distinct(c)
    ensures Distinct(Without(c, code))
    ensures |Without(c, code)| == |c| - if Lookup(c, code).Some? then 1 else 0
  {
    if c != [] {
      var tail := c[1..];
      if c[0].code == code {
        WithoutAbsent(tail, code);
      } else {
        WithoutShrinks(tail, code);
        WithoutKeepsOthers(tail, code);
        var w := Without(tail, code);
        forall j | 0 <= j < |w|
          ensures w[j].code != c[0].code
        {
          assert w[j] in w;
        }
      }
    }
  }

  lemma WithoutIn(c: seq<Entry>, code: string)
    requires Distinct(c)
    ensures Distinct(Without(c, code))
    ensures forall e :: e in Without(c, code) <==> e in c && e.code != code
    ensures |Without(c, code)| == |c| - if Lookup(c, code).Some? then 1 else 0
    ensures Lookup(c, code).None? ==> Without(c, code) == c
  {
    WithoutKeepsOthers(c, code);
    WithoutShrinks(c, code);
    LookupIn(c, code);
    if Lookup(c, code).None? {
      WithoutAbsent(c, code);
    }
  }

  lemma {:induction false} WithoutCommutes(c: seq<Entry>, a: string, b: string)
    ensures Without(Without(c, a), b) == Without(Without(c, b), a)
  {
    if c != [] {
      WithoutCommutes(c[1..], a, b);
      assert c[0].code != a ==> ([c[0]] + Without(c[1..], a))[1..] == Without(c[1..], a);
      assert c[0].code != b ==> ([c[0]] + Without(c[1..], b))[1..] == Without(c[1..], b);
    }
  }

  lemma {:induction false} LookupWithout(c: seq<Entry>, a: string, b: string)
    ensures Lookup(Without(c, a), b) == if a == b then None else Lookup(c, b)
  {
    if c != [] {
      LookupWithout(c[1..], a, b);
      assert c[0].code != a ==> ([c[0]] + Without(c[1..], a))[1..] == Without(c[1..], a);
    }
  }

  lemma {:induction false} LastDeadIn(c: seq<Entry>, now: Time)
    ensures LastDead(c, now).Some? ==> exists e :: e in c && e.code == LastDead(c, now).value && e.Dead(now)
    ensures LastDead(c, now).None? ==> forall e :: e in c ==> !e.Dead(now)
  {
    if c != [] {
      LastDeadIn(c[1..], now);
      assert c[0] in c;
      assert forall e :: e in c[1..] ==> e in c;
    }
  }

  /** Removing another entry does not change which dead entry is the last. */
  lemma {:induction false} LastDeadWithout(c: seq<Entry>, x: string, now: Time)
    requires Distinct(c) && LastDead(c, now) != Some(x)
    ensures LastDead(Without(c, x), now) == LastDead(c, now)
  {
    if c != [] {
      LastDeadIn(c[1..], now);
      if LastDead(c[1..], now) != Some(x) {
        LastDeadWithout(c[1..], x, now);
      }
      assert c[0].code != x ==> ([c[0]] + Without(c[1..], x))[1..] == Without(c[1..], x);
    }
  }

  lemma {:induction false} LastWithout(c: seq<Entry>, x: string)
    requires c != [] && c[|c| - 1].code != x
    ensures Without(c, x) != [] && Without(c, x)[|Without(c, x)| - 1] == c[|c| - 1]
  {
    if |c| > 1 {
      LastWithout(c[1..], x);
    }
  }

  lemma VictimIn(c: seq<Entry>, now: Time)
    requires c != []
    ensures Lookup(c, Victim(c, now)).Some?
  {
    LastDeadIn(c, now);
    LookupIn(c, Victim(c, now));
    assert c[|c| - 1] in c;
  }

  lemma VictimWithout(c: seq<Entry>, x: string, now: Time)
    requires c != [] && Distinct(c) && Victim(c, now) != x
    ensures Without(c, x) != [] && Victim(Without(c, x), now) == Victim(c, now)
  {
    LastDeadWithout(c, x, now);
    if LastDead(c, now).None? {
      LastWithout(c, x);
    } else {
      VictimIn(c, now);
      LookupWithout(c, x, Victim(c, now));
    }
  }

  // ---------------------------------------------- one cache, whole traces

  lemma {:induction false} DeleteKeeps(c: seq<Entry>, codes: seq<string>)
    requires Distinct(c)
    ensures Distinct(AfterDelete(c, codes)) && |AfterDelete(c, codes)| <= |c|
    ensures forall e :: e in AfterDelete(c, codes) <==> e in c && e.code !in codes
  {
    if codes != [] {
      var before := codes[..|codes| - 1];
      DeleteKeeps(c, before);
      WithoutIn(AfterDelete(c, before), codes[|codes| - 1]);
      assert forall x :: x in codes <==> x in before || x == codes[|codes| - 1];
    }
  }

  lemma SetKeeps(c: seq<Entry>, capacity: nat, item: ShortLink, ttl: int, now: Time, evictNow: Time)
    requires Distinct(c) && |c| <= capacity && 0 < capacity
    ensures var d := AfterSet(c, capacity, item, ttl, now, evictNow); Distinct(d) && |d| <= capacity
  {
    WithoutIn(c, item.code);
    LookupIn(c, item.code);
    if c != [] {
      VictimIn(c, evictNow);
      WithoutIn(c, Victim(c, evictNow));
    }
  }

  lemma ApplyKeeps(c: seq<Entry>, capacity: nat, op: Op)
    requires Distinct(c) && |c| <= capacity && 0 < capacity
    ensures Distinct(Apply(c, capacity, op)) && |Apply(c, capacity, op)| <= capacity
  {
    match op
    case Get(code, _) =>
      LookupIn(c, code);
      WithoutIn(c, code);
    case Set(item, ttl, now, evictNow) => SetKeeps(c, capacity, item, ttl, now, evictNow);
    case Delete(codes) => DeleteKeeps(c, codes);
  }

  /** Codes stay distinct and the size within capacity. */
  lemma {:induction false} ReplayKeeps(capacity: nat, ops: seq<Op>)
    requires 0 < capacity
    ensures Distinct(Replay(capacity, ops)) && |Replay(capacity, ops)| <= capacity
  {
    if ops != [] {
      ReplayKeeps(capacity, ops[..|ops| - 1]);
      ApplyKeeps(Replay(capacity, ops[..|ops| - 1]), capacity, ops[|ops| - 1]);
    }
  }

  // ----------------------------------------------------- recency and eviction

  /** A use of `code` is a Set of it, or a Get that hits. */
  predicate Uses(c: seq<Entry>, op: Op, code: string) {
    (op.Set? && op.item.code == code) || (op.Get? && op.code == code && GetHit(c, code, op.now).Some?)
  }

  /** The position in the trace of the last use of `code`. */
  function LastUse(capacity: nat, ops: seq<Op>, code: string): (use: int)
    ensures -1 <= use < |ops|
  {
    if ops == [] then -1
    else
      var before := ops[..|ops| - 1];
      if Uses(Replay(capacity, before), ops[|ops| - 1], code) then |before| else LastUse(capacity, before, code)
  }

  predicate ByUse(c: seq<Entry>, capacity: nat, ops: seq<Op>) {
    forall i, j :: 0 <= i < j < |c| ==> LastUse(capacity, ops, c[i].code) > LastUse(capacity, ops, c[j].code)
  }

  lemma {:induction false} WithoutKeepsOrder(c: seq<Entry>, x: string, capacity: nat, ops: seq<Op>)
    requires ByUse(c, capacity, ops)
    ensures ByUse(Without(c, x), capacity, ops)
  {
    if c != [] {
      WithoutKeepsOrder(c[1..], x, capacity, ops);
      WithoutKeepsOthers(c[1..], x);
      var w := Without(c[1..], x);
      forall j | 0 <= j < |w|
        ensures LastUse(capacity, ops, c[0].code) > LastUse(capacity, ops, w[j].code)
      {
        assert w[j] in w;
      }
    }
  }

  lemma {:induction false} DeleteKeepsOrder(c: seq<Entry>, codes: seq<string>, capacity: nat, ops: seq<Op>)
    requires ByUse(c, capacity, ops)
    ensures ByUse(AfterDelete(c, codes), capacity, ops)
  {
    if codes != [] {
      DeleteKeepsOrder(c, codes[..|codes| - 1], capacity, ops);
      WithoutKeepsOrder(AfterDelete(c, codes[..|codes| - 1]), codes[|codes| - 1], capacity, ops);
    }
  }

  lemma UnusedKeepsOrder(c: seq<Entry>, capacity: nat, ops: seq<Op>)
    requires ops != [] && ByUse(c, capacity, ops[..|ops| - 1])
    requires forall e :: e in c ==> !Uses(Replay(capacity, ops[..|ops| - 1]), ops[|ops| - 1], e.code)
    ensures ByUse(c, capacity, ops)
  {
    forall i | 0 <= i < |c|
      ensures LastUse(capacity, ops, c[i].code) == LastUse(capacity, ops[..|ops| - 1], c[i].code)
    {
      assert c[i] in c;
    }
  }

  lemma UsedComesFirst(e: Entry, rest: seq<Entry>, capacity: nat, ops: seq<Op>)
    requires ops != [] && ByUse(rest, capacity, ops[..|ops| - 1])
    requires Uses(Replay(capacity, ops[..|ops| - 1]), ops[|ops| - 1], e.code)
    requires forall x :: x in rest ==> x.code != e.code
    ensures ByUse([e] + rest, capacity, ops)
  {
    UnusedKeepsOrder(rest, capacity, ops);
    forall i | 0 <= i < |rest|
      ensures LastUse(capacity, ops, rest[i].code) < |ops| - 1
    {
      assert rest[i] in rest;
    }
  }

  /** The recency list is in the order of last use, whatever the trace. */
  lemma {:induction false} ListIsByUse(capacity: nat, ops: seq<Op>)
    requires 0 < capacity
    ensures ByUse(Replay(capacity, ops), capacity, ops)
  {
    if ops != [] {
      var before, op := ops[..|ops| - 1], ops[|ops| - 1];
      var c := Replay(capacity, before);
      ListIsByUse(capacity, before);
      ReplayKeeps(capacity, before);
      match op
      case Get(code, now) =>
        LookupIn(c, code);
        WithoutIn(c, code);
        WithoutKeepsOrder(c, code, capacity, before);
        if GetHit(c, code, now).Some? {
          UsedComesFirst(Lookup(c, code).value, Without(c, code), capacity, ops);
        } else {
          UnusedKeepsOrder(AfterGet(c, code, now), capacity, ops);
        }
      case Set(item, ttl, now, evictNow) =>
        SetIsByUse(capacity, ops);
      case Delete(codes) =>
        DeleteKeepsOrder(c, codes, capacity, before);
        UnusedKeepsOrder(AfterDelete(c, codes), capacity, ops);
    }
  }

  lemma SetIsByUse(capacity: nat, ops: seq<Op>)
    requires 0 < capacity && ops != [] && ops[|ops| - 1].Set?
    requires ByUse(Replay(capacity, ops[..|ops| - 1]), capacity, ops[..|ops| - 1])
    ensures ByUse(Replay(capacity, ops), capacity, ops)
  {
    var before, op := ops[..|ops| - 1], ops[|ops| - 1];
    var c := Replay(capacity, before);
    ReplayKeeps(capacity, before);
    LookupIn(c, op.item.code);
    var e := NewEntry(op.item, op.ttl, op.now);
    if Lookup(c, op.item.code).Some? {
      WithoutIn(c, op.item.code);
      WithoutKeepsOrder(c, op.item.code, capacity, before);
      UsedComesFirst(e, Without(c, op.item.code), capacity, ops);
    } else {
      if c != [] {
        WithoutIn(c, Victim(c, op.evictNow));
        WithoutKeepsOrder(c, Victim(c, op.evictNow), capacity, before);
      }
      UsedComesFirst(e, MakeRoom(c, capacity, op.evictNow), capacity, ops);
    }
  }

  lemma {:induction false} LastDeadIsLast(c: seq<Entry>, now: Time) returns (i: nat)
    requires LastDead(c, now).Some?
    ensures i < |c| && c[i].code == LastDead(c, now).value && c[i].Dead(now)
    ensures forall j :: i < j < |c| ==> !c[j].Dead(now)
  {
    if LastDead(c[1..], now).Some? {
      i := LastDeadIsLast(c[1..], now);
      i := i + 1;
      forall j | i < j < |c|
        ensures !c[j].Dead(now)
      {
        assert c[j] == c[1..][j - 1];
      }
    } else {
      i := 0;
      LastDeadIn(c[1..], now);
      forall j | 0 < j < |c|
        ensures !c[j].Dead(now)
      {
        assert c[j] in c[1..];
      }
    }
  }

  /** The dead go before the living, and among either the least recently used. */
  predicate GoesBefore(e: Entry, x: Entry, now: Time, capacity: nat, ops: seq<Op>) {
    if e.Dead(now) != x.Dead(now) then e.Dead(now)
    else LastUse(capacity, ops, e.code) < LastUse(capacity, ops, x.code)
  }

  lemma VictimGoesFirst(capacity: nat, ops: seq<Op>, now: Time, e: Entry)
    requires 0 < capacity && e in Replay(capacity, ops) && e.code == Victim(Replay(capacity, ops), now)
    ensures forall x :: x in Replay(capacity, ops) && x != e ==> GoesBefore(e, x, now, capacity, ops)
  {
    var c := Replay(capacity, ops);
    ReplayKeeps(capacity, ops);
    ListIsByUse(capacity, ops);
    LastDeadIn(c, now);
    var v: nat := |c| - 1;
    if LastDead(c, now).Some? {
      v := LastDeadIsLast(c, now);
    }
    assert e == c[v];
  }

  /** On any trace, the one entry that a Set of another code removes is, of a full cache, an
      expired one if there is any, and of those that qualify the least recently used. */
  lemma EvictsInOrderOfUse(capacity: nat, ops: seq<Op>, op: Op, e: Entry)
    requires 0 < capacity && op.Set? && e.code != op.item.code
    requires e in Replay(capacity, ops) && e !in Replay(capacity, ops + [op])
    ensures |Replay(capacity, ops)| == capacity && Lookup(Replay(capacity, ops), op.item.code).None?
    ensures forall x :: x in Replay(capacity, ops) && x != e ==>
              x in Replay(capacity, ops + [op]) && GoesBefore(e, x, op.evictNow, capacity, ops)
  {
    assert (ops + [op])[..|ops|] == ops;
    var c := Replay(capacity, ops);
    ReplayKeeps(capacity, ops);
    WithoutIn(c, op.item.code);
    WithoutIn(c, Victim(c, op.evictNow));
    VictimGoesFirst(capacity, ops, op.evictNow, e);
  }

  // ------------------------------------------------- two caches, one trace

  function Minus(c: seq<Entry>, extra: Option<string>): seq<Entry> {
    match extra
    case None => c
    case Some(x) => Without(c, x)
  }

  /** The smaller cache's list is the larger one's with at most one entry left out. */
  ghost predicate Included(small: seq<Entry>, big: seq<Entry>) {
    exists x: Option<string> :: small == Minus(big, x)
  }

  lemma ConsWithout(e: Entry, c: seq<Entry>, x: string)
    ensures Without([e] + c, x) == if e.code == x then Without(c, x) else [e] + Without(c, x)
  {
    assert ([e] + c)[1..] == c;
  }

  lemma {:induction false} DeleteIncludes(big: seq<Entry>, x: string, codes: seq<string>)
    ensures AfterDelete(Without(big, x), codes) == Without(AfterDelete(big, codes), x)
  {
    if codes != [] {
      var before, last := codes[..|codes| - 1], codes[|codes| - 1];
      DeleteIncludes(big, x, before);
      WithoutCommutes(AfterDelete(big, before), x, last);
    }
  }

  lemma GetIncludes(big: seq<Entry>, x: string, code: string, now: Time)
    requires Distinct(big)
    ensures Included(AfterGet(Without(big, x), code, now), AfterGet(big, code, now))
    ensures GetHit(Without(big, x), code, now).Some? ==>
              GetHit(big, code, now) == GetHit(Without(big, x), code, now)
  {
    var small := Without(big, x);
    LookupWithout(big, x, code);
    LookupIn(big, code);
    WithoutCommutes(big, x, code);
    var after := AfterGet(big, code, now);
    if Lookup(big, code).Some? {
      var e := Lookup(big, code).value;
      ConsWithout(e, Without(big, code), x);
      if x == code {
        WithoutIn(big, code);
        WithoutIn(small, code);
        LookupWithout(small, code, code);
        assert Without(small, code) == small;
        assert e.Dead(now) ==> small == Minus(after, None);
      }
      assert !e.Dead(now) ==> AfterGet(small, code, now) == Minus(after, Some(x));
      assert e.Dead(now) && x != code ==> AfterGet(small, code, now) == Minus(after, Some(x));
    } else {
      assert small == Minus(after, Some(x));
    }
  }

  lemma RoomIncludes(big: seq<Entry>, x: string, n: nat, now: Time)
    requires Distinct(big) && 0 < n && |big| <= n + 1 && |Without(big, x)| <= n
    ensures exists y: Option<string> :: MakeRoom(Without(big, x), n, now) == Minus(MakeRoom(big, n + 1, now), y)
              && (y.Some? ==> y == Some(x) || Lookup(big, y.value).Some?)
  {
    var small := Without(big, x);
    WithoutIn(big, x);
    if |small| < n {
      assert |big| <= n;
      assert MakeRoom(small, n, now) == Minus(big, Some(x));
    } else {
      var v := Victim(small, now);
      VictimIn(small, now);
      LookupWithout(big, x, v);
      if |big| <= n {
        assert MakeRoom(small, n, now) == Minus(big, Some(v));
      } else if Victim(big, now) == x {
        assert MakeRoom(small, n, now) == Minus(small, Some(v));
      } else {
        VictimWithout(big, x, now);
        WithoutCommutes(big, x, v);
        assert MakeRoom(small, n, now) == Minus(Without(big, v), Some(x));
      }
    }
  }

  lemma SetIncludes(big: seq<Entry>, x: string, n: nat, item: ShortLink, ttl: int, now: Time, evictNow: Time)
    requires Distinct(big) && 0 < n && |big| <= n + 1 && |Without(big, x)| <= n
    ensures Included(AfterSet(Without(big, x), n, item, ttl, now, evictNow),
                     AfterSet(big, n + 1, item, ttl, now, evictNow))
  {
    var small, e, code := Without(big, x), NewEntry(item, ttl, now), item.code;
    var after := AfterSet(big, n + 1, item, ttl, now, evictNow);
    LookupWithout(big, x, code);
    if Lookup(big, code).Some? && code != x {
      WithoutCommutes(big, x, code);
      ConsWithout(e, Without(big, code), x);
      assert AfterSet(small, n, item, ttl, now, evictNow) == Minus(after, Some(x));
    } else if Lookup(big, code).Some? {
      if |small| >= n {
        var v := Victim(small, evictNow);
        VictimIn(small, evictNow);
        ConsWithout(e, small, v);
        assert AfterSet(small, n, item, ttl, now, evictNow) == Minus(after, Some(v));
      } else {
        assert AfterSet(small, n, item, ttl, now, evictNow) == Minus(after, None);
      }
    } else {
      RoomIncludes(big, x, n, evictNow);
      var y: Option<string> :| MakeRoom(small, n, evictNow) == Minus(MakeRoom(big, n + 1, evictNow), y)
        && (y.Some? ==> y == Some(x) || Lookup(big, y.value).Some?);
      if y.Some? && y.value != code {
        ConsWithout(e, MakeRoom(big, n + 1, evictNow), y.value);
        assert AfterSet(small, n, item, ttl, now, evictNow) == Minus(after, y);
      } else if y.Some? {
        WithoutIn(big, x);
        MakeRoomLacks(big, n + 1, evictNow, code);
        assert AfterSet(small, n, item, ttl, now, evictNow) == Minus(after, None);
      } else {
        assert AfterSet(small, n, item, ttl, now, evictNow) == Minus(after, None);
      }
    }
  }

  lemma MakeRoomLacks(c: seq<Entry>, capacity: nat, now: Time, code: string)
    requires Distinct(c) && Lookup(c, code).None?
    ensures Without(MakeRoom(c, capacity, now), code) == MakeRoom(c, capacity, now)
  {
    WithoutIn(c, code);
    if c != [] {
      WithoutCommutes(c, Victim(c, now), code);
    }
  }

  /** One operation, with the same clock readings, keeps the inclusion; a hit in the smaller
      cache is the same hit in the larger. */
  lemma ApplyIncludes(small: seq<Entry>, big: seq<Entry>, n: nat, op: Op)
    requires Distinct(big) && 0 < n && |small| <= n && |big| <= n + 1 && Included(small, big)
    ensures Included(Apply(small, n, op), Apply(big, n + 1, op))
    ensures op.Get? && GetHit(small, op.code, op.now).Some? ==>
              GetHit(big, op.code, op.now) == GetHit(small, op.code, op.now)
  {
    var x := LeftOut(small, big);
    assert small == Without(big, x);
    match op
    case Get(code, now) =>
      GetIncludes(big, x, code, now);
    case Set(item, ttl, now, evictNow) =>
      SetIncludes(big, x, n, item, ttl, now, evictNow);
    case Delete(codes) =>
      DeleteIncludes(big, x, codes);
      assert Apply(small, n, op) == Minus(Apply(big, n + 1, op), Some(x));
  }

  /** Leaving out nothing is leaving out a code that is not there. */
  lemma LeftOut(small: seq<Entry>, big: seq<Entry>) returns (x: string)
    requires Distinct(big) && Included(small, big)
    ensures small == Without(big, x)
  {
    var y: Option<string> :| small == Minus(big, y);
    if y.Some? {
      x := y.value;
    } else {
      x := LongerThanAll(big);
      LookupIn(big, x);
      WithoutIn(big, x);
    }
  }

  lemma {:induction false} LongerThanAll(c: seq<Entry>) returns (x: string)
    ensures forall e :: e in c ==> |e.code| < |x|
  {
    if c == [] {
      x := "x";
    } else {
      x := LongerThanAll(c[1..]);
      x := x + c[0].code + "x";
      forall e | e in c
        ensures |e.code| < |x|
      {
      }
    }
  }

  /** Capacity inclusion: on any trace, the list of a cache of capacity n is that of a cache
      of capacity n + 1 with at most one entry left out. */
  lemma {:induction false} CapacityInclusion(n: nat, ops: seq<Op>)
    requires 0 < n
    ensures Included(Replay(n, ops), Replay(n + 1, ops))
  {
    if ops == [] {
      assert [] == Minus([], None);
    } else {
      var before := ops[..|ops| - 1];
      CapacityInclusion(n, before);
      ReplayKeeps(n, before);
      ReplayKeeps(n + 1, before);
      ApplyIncludes(Replay(n, before), Replay(n + 1, before), n, ops[|ops| - 1]);
    }
  }

  /** A larger cache hits, with the same item, whenever a smaller one does. */
  lemma {:induction false} LargerCacheHits(n: nat, m: nat, ops: seq<Op>, code: string, now: Time)
    requires 0 < n <= m && GetHit(Replay(n, ops), code, now).Some?
    ensures GetHit(Replay(m, ops), code, now) == GetHit(Replay(n, ops), code, now)
    decreases m
  {
    if n < m {
      LargerCacheHits(n, m - 1, ops, code, now);
      CapacityInclusion(m - 1, ops);
      ReplayKeeps(m - 1, ops);
      ReplayKeeps(m, ops);
      ApplyIncludes(Replay(m - 1, ops), Replay(m, ops), m - 1, Get(code, now));
    }
  }
}
