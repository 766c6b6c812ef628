/** What the local cache is meant to be, without a list: a table of slots, each with the time
    and the time to live it was set with and the position in the trace at which it was last
    used.  The recency list of CacheSpec does the same on every trace.
 */
module CacheReference {
  import opened Options
  import opened Links
  import opened CacheSpec

  datatype Slot = Slot(item: ShortLink, at: Time, ttl: int, used: nat)

  type Table = map<string, Slot>

  /** A positive time to live has passed.  (A deadline that falls on Go's zero time does not
      count as one.) */
  predicate Over(s: Slot, now: Time) {
    s.ttl > 0 && s.at + s.ttl <= now && s.at + s.ttl != 0
  }

  /** The expired go before the others, and among either who was used longest ago. */
  predicate Sooner(a: Slot, b: Slot, now: Time) {
    if Over(a, now) != Over(b, now) then Over(a, now) else a.used < b.used
  }

  ghost predicate IsVictim(m: Table, code: string, now: Time) {
    code in m && forall x :: x in m && x != code ==> Sooner(m[code], m[x], now)
  }

  /** Room for one more: a full table loses its victim. */
  ghost predicate MakesRoom(capacity: nat, m: Table, now: Time, room: Table) {
    if |m| < capacity then room == m else exists code :: IsVictim(m, code, now) && room == m - {code}
  }

  function AfterRead(m: Table, n: nat, code: string, now: Time): Table {
    if code !in m then m else if Over(m[code], now) then m - {code} else m[code := m[code].(used := n)]
  }

  function AfterRemoval(m: Table, codes: seq<string>): Table {
    map code | code in m && code !in codes :: m[code]
  }

  ghost predicate Writes(capacity: nat, m: Table, slot: Slot, evictNow: Time, m': Table) {
    var code := slot.item.code;
    if code in m then m' == m[code := slot]
    else exists room: Table :: MakesRoom(capacity, m, evictNow, room) && m' == room[code := slot]
  }

  /** Operation n of a trace. */
  ghost predicate Steps(capacity: nat, n: nat, m: Table, op: Op, m': Table) {
    match op
    case Get(code, now) => m' == AfterRead(m, n, code, now)
    case Set(item, ttl, now, evictNow) => Writes(capacity, m, Slot(item, now, ttl, n), evictNow, m')
    case Delete(codes) => m' == AfterRemoval(m, codes)
  }

  ghost predicate Reaches(capacity: nat, ops: seq<Op>, m: Table) {
    if ops == [] then m == map[]
    else
      var init := ops[..|ops| - 1];
      exists before: Table :: Reaches(capacity, init, before) && Steps(capacity, |init|, before, ops[|init|], m)
  }

  function Hit(m: Table, code: string, now: Time): Option<ShortLink> {
    if code in m && !Over(m[code], now) then Some(m[code].item) else None
  }

  // ------------------------------------------------------------- list and table

  function Deadline(s: Slot): Time {
    if s.ttl > 0 then s.at + s.ttl else 0
  }

  predicate SameSlot(e: Entry, s: Slot) {
    e.value == s.item && e.expireAt == Deadline(s)
  }

  function Used(m: Table, code: string): int {
    if code in m then m[code].used else -1
  }

  ghost predicate ByUsed(c: seq<Entry>, m: Table) {
    forall i, j :: 0 <= i < j < |c| ==> Used(m, c[i].code) > Used(m, c[j].code)
  }

  /** The list holds the table's slots. */
  ghost predicate SameSlots(c: seq<Entry>, m: Table) {
    && (forall code :: code in m <==> Lookup(c, code).Some?)
    && (forall code :: code in m ==> SameSlot(Lookup(c, code).value, m[code]))
  }

  /** It holds them with the latest used first; operation n is yet to come. */
  ghost predicate Same(c: seq<Entry>, m: Table, n: nat) {
    Distinct(c) && SameSlots(c, m) && ByUsed(c, m) && forall code :: code in m ==> m[code].used < n
  }

  lemma {:induction false} LookupAt(c: seq<Entry>, i: nat)
    requires Distinct(c) && i < |c|
    ensures Lookup(c, c[i].code) == Some(c[i])
  {
    if i > 0 {
      LookupAt(c[1..], i - 1);
    }
  }

  lemma LookupFront(e: Entry, c: seq<Entry>, code: string)
    ensures Lookup([e] + c, code) == if code == e.code then Some(e) else Lookup(c, code)
  {
    assert ([e] + c)[1..] == c;
  }

  lemma {:induction false} CodesAreCounted(c: seq<Entry>, m: Table)
    requires Distinct(c) && forall code :: code in m <==> Lookup(c, code).Some?
    ensures |m| == |c|
  {
    if c == [] {
      assert m == map[];
    } else {
      var rest := m - {c[0].code};
      forall code
        ensures code in rest <==> Lookup(c[1..], code).Some?
      {
        if code == c[0].code {
          LookupIn(c[1..], code);
          AbsentFromTail(c);
        }
      }
      CodesAreCounted(c[1..], rest);
      assert m.Keys == rest.Keys + {c[0].code};
    }
  }

  lemma AbsentFromTail(c: seq<Entry>)
    requires Distinct(c) && c != []
    ensures forall e :: e in c[1..] ==> e.code != c[0].code
  {
  }

  lemma SameHits(c: seq<Entry>, m: Table, n: nat, code: string, now: Time)
    requires Same(c, m, n)
    ensures GetHit(c, code, now) == Hit(m, code, now)
  {
  }

  lemma SlotsWithout(c: seq<Entry>, m: Table, code: string)
    requires SameSlots(c, m)
    ensures SameSlots(Without(c, code), m - {code})
  {
    forall x
      ensures Lookup(Without(c, code), x) == if code == x then None else Lookup(c, x)
    {
      LookupWithout(c, code, x);
    }
  }

  /** Leaving out a code on both sides. */
  lemma SameWithout(c: seq<Entry>, m: Table, n: nat, code: string)
    requires Same(c, m, n)
    ensures Same(Without(c, code), m - {code}, n)
  {
    WithoutIn(c, code);
    SlotsWithout(c, m, code);
    WithoutKeepsUsed(c, m, code);
    UsedElsewhere(Without(c, code), m, m - {code});
  }

  lemma UsedElsewhere(c: seq<Entry>, m: Table, m': Table)
    requires ByUsed(c, m) && forall e :: e in c ==> Used(m', e.code) == Used(m, e.code)
    ensures ByUsed(c, m')
  {
    forall i | 0 <= i < |c|
      ensures Used(m', c[i].code) == Used(m, c[i].code)
    {
      assert c[i] in c;
    }
  }

  lemma {:induction false} WithoutKeepsUsed(c: seq<Entry>, m: Table, code: string)
    requires ByUsed(c, m)
    ensures ByUsed(Without(c, code), m)
  {
    if c != [] {
      WithoutKeepsUsed(c[1..], m, code);
      WithoutKeepsOthers(c[1..], code);
      var w := Without(c[1..], code);
      forall j | 0 <= j < |w|
        ensures Used(m, c[0].code) > Used(m, w[j].code)
      {
        assert w[j] in w;
      }
    }
  }

  lemma SlotsFront(c: seq<Entry>, m: Table, e: Entry, s: Slot)
    requires SameSlots(c, m) && SameSlot(e, s)
    ensures SameSlots([e] + c, m[e.code := s])
  {
    forall x
      ensures Lookup([e] + c, x) == if x == e.code then Some(e) else Lookup(c, x)
    {
      LookupFront(e, c, x);
    }
  }

  lemma CodesOfList(c: seq<Entry>, m: Table)
    requires Distinct(c) && SameSlots(c, m)
    ensures forall e :: e in c ==> e.code in m
  {
    forall e | e in c
      ensures e.code in m
    {
      var i :| 0 <= i < |c| && c[i] == e;
      LookupAt(c, i);
    }
  }

  /** A new first entry, used now. */
  lemma SameFront(c: seq<Entry>, m: Table, n: nat, e: Entry, s: Slot)
    requires Same(c, m, n) && e.code !in m && SameSlot(e, s) && s.used == n
    ensures Same([e] + c, m[e.code := s], n + 1)
  {
    SlotsFront(c, m, e, s);
    CodesOfList(c, m);
    UsedElsewhere(c, m, m[e.code := s]);
    forall i | 0 <= i < |c|
      ensures c[i].code != e.code && Used(m[e.code := s], c[i].code) < n
    {
      assert c[i] in c;
    }
  }

  /** The list's victim is the table's. */
  lemma SameVictim(c: seq<Entry>, m: Table, n: nat, now: Time)
    requires Same(c, m, n) && c != []
    ensures IsVictim(m, Victim(c, now), now)
  {
    LastDeadIn(c, now);
    var v: nat := |c| - 1;
    if LastDead(c, now).Some? {
      v := LastDeadIsLast(c, now);
    }
    LookupAt(c, v);
    forall x | x in m && x != c[v].code
      ensures Sooner(m[c[v].code], m[x], now)
    {
      LookupIn(c, x);
      var i :| 0 <= i < |c| && c[i] == Lookup(c, x).value;
    }
  }

  lemma OneVictim(m: Table, a: string, b: string, now: Time)
    requires IsVictim(m, a, now) && IsVictim(m, b, now)
    ensures a == b
  {
  }

  lemma SameRoom(c: seq<Entry>, m: Table, n: nat, capacity: nat, now: Time, room: Table)
    requires Same(c, m, n) && 0 < capacity && MakesRoom(capacity, m, now, room)
    ensures Same(MakeRoom(c, capacity, now), room, n)
  {
    CodesAreCounted(c, m);
    if |m| >= capacity {
      var code :| IsVictim(m, code, now) && room == m - {code};
      assert c != [];
      SameVictim(c, m, n, now);
      OneVictim(m, code, Victim(c, now), now);
      SameWithout(c, m, n, code);
    }
  }

  lemma SetSame(c: seq<Entry>, m: Table, n: nat, capacity: nat, op: Op, m': Table)
    requires Same(c, m, n) && 0 < capacity && op.Set? && Steps(capacity, n, m, op, m')
    ensures Same(Apply(c, capacity, op), m', n + 1)
  {
    var code, slot := op.item.code, Slot(op.item, op.now, op.ttl, n);
    var e := NewEntry(op.item, op.ttl, op.now);
    if code in m {
      SameWithout(c, m, n, code);
      SameFront(Without(c, code), m - {code}, n, e, slot);
      assert (m - {code})[code := slot] == m[code := slot];
    } else {
      var room: Table :| MakesRoom(capacity, m, op.evictNow, room) && m' == room[code := slot];
      SameRoom(c, m, n, capacity, op.evictNow, room);
      SameFront(MakeRoom(c, capacity, op.evictNow), room, n, e, slot);
    }
  }

  lemma GetSame(c: seq<Entry>, m: Table, n: nat, code: string, now: Time, m': Table)
    requires Same(c, m, n) && m' == AfterRead(m, n, code, now)
    ensures Same(AfterGet(c, code, now), m', n + 1)
  {
    LookupIn(c, code);
    if code in m {
      SameWithout(c, m, n, code);
      if !Over(m[code], now) {
        var slot := m[code].(used := n);
        SameFront(Without(c, code), m - {code}, n, Lookup(c, code).value, slot);
        assert (m - {code})[code := slot] == m[code := slot];
      }
    }
  }

  lemma {:induction false} DeleteSame(c: seq<Entry>, m: Table, n: nat, codes: seq<string>)
    requires Same(c, m, n)
    ensures Same(AfterDelete(c, codes), AfterRemoval(m, codes), n)
  {
    if codes == [] {
      assert AfterRemoval(m, codes) == m;
    } else {
      var before, last := codes[..|codes| - 1], codes[|codes| - 1];
      var rest := AfterRemoval(m, before);
      DeleteSame(c, m, n, before);
      SameWithout(AfterDelete(c, before), rest, n, last);
      assert forall x :: x in codes <==> x in before || x == last;
      assert rest - {last} == AfterRemoval(m, codes);
    }
  }

  lemma SameLater(c: seq<Entry>, m: Table, n: nat)
    requires Same(c, m, n)
    ensures Same(c, m, n + 1)
  {
  }

  lemma StepSame(c: seq<Entry>, m: Table, n: nat, capacity: nat, op: Op, m': Table)
    requires Same(c, m, n) && 0 < capacity && Steps(capacity, n, m, op, m')
    ensures Same(Apply(c, capacity, op), m', n + 1)
  {
    match op
    case Get(code, now) => GetSame(c, m, n, code, now, m');
    case Set(_, _, _, _) => SetSame(c, m, n, capacity, op, m');
    case Delete(codes) =>
      DeleteSame(c, m, n, codes);
      SameLater(AfterDelete(c, codes), m', n);
  }

  lemma {:induction false} TraceSame(capacity: nat, ops: seq<Op>, m: Table)
    requires 0 < capacity && Reaches(capacity, ops, m)
    ensures Same(Replay(capacity, ops), m, |ops|)
  {
    if ops != [] {
      var init := ops[..|ops| - 1];
      var before: Table :| Reaches(capacity, init, before) && Steps(capacity, |init|, before, ops[|ops| - 1], m);
      TraceSame(capacity, init, before);
      StepSame(Replay(capacity, init), before, |init|, capacity, ops[|ops| - 1], m);
    }
  }

  /** The table can take every step. */
  lemma CanStep(c: seq<Entry>, m: Table, n: nat, capacity: nat, op: Op) returns (m': Table)
    requires Same(c, m, n) && 0 < capacity
    ensures Steps(capacity, n, m, op, m')
  {
    match op
    case Get(code, now) => m' := AfterRead(m, n, code, now);
    case Set(item, ttl, now, evictNow) =>
      var room := m;
      if item.code !in m && |m| >= capacity {
        CodesAreCounted(c, m);
        assert c != [];
        SameVictim(c, m, n, evictNow);
        room := m - {Victim(c, evictNow)};
      }
      m' := room[item.code := Slot(item, now, ttl, n)];
      assert item.code !in m ==> MakesRoom(capacity, m, evictNow, room);
    case Delete(codes) => m' := AfterRemoval(m, codes);
  }

  /** Every trace leads the table somewhere. */
  lemma {:induction false} TraceReaches(capacity: nat, ops: seq<Op>) returns (m: Table)
    requires 0 < capacity
    ensures Reaches(capacity, ops, m)
  {
    m := map[];
    if ops != [] {
      var init := ops[..|ops| - 1];
      var before := TraceReaches(capacity, init);
      TraceSame(capacity, init, before);
      m := CanStep(Replay(capacity, init), before, |init|, capacity, ops[|ops| - 1]);
    }
  }

  /** On every trace the recency list and the table answer every Get alike: the item of the
      slot, if the code has one and its time to live has not passed. */
  lemma ListIsReference(capacity: nat, ops: seq<Op>, m: Table, code: string, now: Time)
    requires 0 < capacity && Reaches(capacity, ops, m)
    ensures GetHit(Replay(capacity, ops), code, now) == Hit(m, code, now)
    ensures Lookup(Replay(capacity, ops), code).Some? <==> code in m
  {
    TraceSame(capacity, ops, m);
    SameHits(Replay(capacity, ops), m, |ops|, code, now);
  }

  // ------------------------------------------------------------ time to live

  predicate Touches(op: Op, code: string) {
    (op.Set? && op.item.code == code) || (op.Delete? && code in op.codes)
  }

  /** Operation k is the last Set of the code, and no Delete of it came later. */
  ghost predicate IsLatestSet(ops: seq<Op>, k: nat, code: string) {
    k < |ops| && ops[k].Set? && ops[k].item.code == code && forall j :: k < j < |ops| ==> !Touches(ops[j], code)
  }

  lemma SlotWasSet(capacity: nat, n: nat, m: Table, op: Op, m': Table, code: string)
    requires Steps(capacity, n, m, op, m') && code in m'
    ensures if op.Set? && op.item.code == code then m'[code] == Slot(op.item, op.now, op.ttl, n)
            else code in m && !Touches(op, code) && m'[code] == m[code].(used := m'[code].used)
  {
  }

  lemma {:induction false} SlotIsLatestSet(capacity: nat, ops: seq<Op>, m: Table, code: string) returns (k: nat)
    requires Reaches(capacity, ops, m) && code in m
    ensures IsLatestSet(ops, k, code)
    ensures m[code].item == ops[k].item && m[code].at == ops[k].now && m[code].ttl == ops[k].ttl
  {
    var init, op := ops[..|ops| - 1], ops[|ops| - 1];
    var before: Table :| Reaches(capacity, init, before) && Steps(capacity, |init|, before, op, m);
    SlotWasSet(capacity, |init|, before, op, m, code);
    if op.Set? && op.item.code == code {
      k := |init|;
    } else {
      k := SlotIsLatestSet(capacity, init, before, code);
      assert forall j :: k < j < |init| ==> ops[j] == init[j];
    }
  }

  /** In terms of the trace alone: while the cache holds a code, it hits exactly until the time
      to live of the latest Set has passed, with that Set's item; what it does not hold, it
      misses. */
  lemma HitExactlyWhen(capacity: nat, ops: seq<Op>, code: string, now: Time) returns (k: nat)
    requires 0 < capacity
    ensures Lookup(Replay(capacity, ops), code).None? ==> GetHit(Replay(capacity, ops), code, now).None?
    ensures Lookup(Replay(capacity, ops), code).Some? ==>
              && IsLatestSet(ops, k, code)
              && GetHit(Replay(capacity, ops), code, now) ==
                   if ops[k].ttl <= 0 || now < ops[k].now + ops[k].ttl || ops[k].now + ops[k].ttl == 0 then Some(ops[k].item) else None
  {
    k := 0;
    var m := TraceReaches(capacity, ops);
    ListIsReference(capacity, ops, m, code, now);
    if code in m {
      k := SlotIsLatestSet(capacity, ops, m, code);
    }
  }

  /** What the cache holds after one more operation: what the operation sets, and of what it
      held all but what the operation deletes, finds expired, or evicts to make room. */
  lemma HeldAfterwards(capacity: nat, ops: seq<Op>, op: Op, m: Table, m': Table, code: string)
    requires 0 < capacity && Reaches(capacity, ops, m) && Steps(capacity, |ops|, m, op, m')
    ensures Lookup(Replay(capacity, ops + [op]), code).Some? <==>
              || (op.Set? && op.item.code == code)
              || (code in m
                  && !(op.Get? && op.code == code && Over(m[code], op.now))
                  && !(op.Delete? && code in op.codes)
                  && !(op.Set? && op.item.code !in m && |m| >= capacity && IsVictim(m, code, op.evictNow)))
  {
    assert (ops + [op])[..|ops|] == ops;
    assert Reaches(capacity, ops + [op], m');
    ListIsReference(capacity, ops + [op], m', code, 0);
    if op.Set? && op.item.code !in m && |m| >= capacity {
      var room: Table :| MakesRoom(capacity, m, op.evictNow, room) && m' == room[op.item.code := Slot(op.item, op.now, op.ttl, |ops|)];
      var v :| IsVictim(m, v, op.evictNow) && room == m - {v};
      if code in m && IsVictim(m, code, op.evictNow) {
        OneVictim(m, v, code, op.evictNow);
      }
    }
  }
}
