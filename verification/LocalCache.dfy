/** The local cache as the program keeps it: a map from codes to the elements of a doubly
    linked list, both updated in place (internal/infrastructure/cache/local.go).

    Every operation is proved to act on the recency list as CacheSpec says.
 */
module LocalCache {
  import opened Options
  import opened Links
  import Spec = CacheSpec

  class Element {
    var prev: Element?
    var next: Element?
    const code: string
    var value: ShortLink
    var expireAt: Time

    constructor (code: string, value: ShortLink, expireAt: Time)
      ensures this.code == code && this.value == value && this.expireAt == expireAt
    {
      this.code, this.value, this.expireAt := code, value, expireAt;
      prev, next := null, null;
    }
  }

  /** A doubly linked list.  `nodes` is its contents, front first. */
  class LruList {
    var front: Element?
    var back: Element?
    ghost var nodes: seq<Element>

    ghost predicate LinkedAt(i: int)
      requires 0 <= i < |nodes|
      reads this, nodes
    {
      && nodes[i].prev == (if i == 0 then null else nodes[i - 1])
      && nodes[i].next == (if i == |nodes| - 1 then null else nodes[i + 1])
    }

    ghost predicate Valid()
      reads this, nodes
    {
      && (forall i, j :: 0 <= i < j < |nodes| ==> nodes[i] != nodes[j])
      && front == (if nodes == [] then null else nodes[0])
      && back == (if nodes == [] then null else nodes[|nodes| - 1])
      && (forall i :: 0 <= i < |nodes| ==> LinkedAt(i))
    }

    constructor ()
      ensures Valid() && nodes == []
    {
      front, back, nodes := null, null, [];
    }

    method PushFront(e: Element)
      requires Valid() && e !in nodes
      modifies this, e`prev, e`next, (set n | n in nodes)`prev
      ensures Valid() && nodes == [e] + old(nodes)
    {
      e.prev, e.next := null, front;
      if front == null {
        back := e;
      } else {
        front.prev := e;
      }
      front := e;
      nodes := [e] + nodes;
      forall i | 0 <= i < |nodes|
        ensures LinkedAt(i)
      {
        assert i > 0 ==> old(LinkedAt(i - 1));
      }
    }

    method Remove(e: Element, ghost at: nat)
      requires Valid() && at < |nodes| && nodes[at] == e
      modifies this, (set n | n in nodes)`prev, (set n | n in nodes)`next
      ensures Valid() && nodes == old(nodes[..at] + nodes[at + 1..])
    {
      assert LinkedAt(at);
      assert at > 0 ==> LinkedAt(at - 1);
      assert at < |nodes| - 1 ==> LinkedAt(at + 1);
      if e.prev == null {
        front := e.next;
      } else {
        e.prev.next := e.next;
      }
      if e.next == null {
        back := e.prev;
      } else {
        e.next.prev := e.prev;
      }
      e.prev, e.next := null, null;
      nodes := nodes[..at] + nodes[at + 1..];
      forall i | 0 <= i < |nodes|
        ensures LinkedAt(i)
      {
        assert old(LinkedAt(if i < at then i else i + 1));
      }
    }

    method MoveToFront(e: Element, ghost at: nat)
      requires Valid() && at < |nodes| && nodes[at] == e
      modifies this, (set n | n in nodes)`prev, (set n | n in nodes)`next
      ensures Valid() && nodes == [e] + old(nodes[..at] + nodes[at + 1..])
    {
      if front == e {
        assert at == 0;
        return;
      }
      Remove(e, at);
      PushFront(e);
    }
  }

  ghost function EntryOf(e: Element): Spec.Entry
    reads e
  {
    Spec.Entry(e.code, e.value, e.expireAt)
  }

  ghost function Entries(nodes: seq<Element>): (c: seq<Spec.Entry>)
    reads nodes
    ensures |c| == |nodes|
  {
    seq(|nodes|, i requires 0 <= i < |nodes| reads nodes => EntryOf(nodes[i]))
  }

  lemma {:induction false} LookupAt(c: seq<Spec.Entry>, i: nat)
    requires Spec.Distinct(c) && i < |c|
    ensures Spec.Lookup(c, c[i].code) == Some(c[i])
  {
    if i > 0 {
      LookupAt(c[1..], i - 1);
    }
  }

  lemma {:induction false} WithoutAt(c: seq<Spec.Entry>, i: nat)
    requires Spec.Distinct(c) && i < |c|
    ensures Spec.Without(c, c[i].code) == c[..i] + c[i + 1..]
  {
    if i == 0 {
      Spec.LookupIn(c[1..], c[0].code);
      Spec.WithoutIn(c[1..], c[0].code);
    } else {
      WithoutAt(c[1..], i - 1);
      assert c[1..][..i - 1] == c[1..i] && c[1..][i..] == c[i + 1..];
      assert [c[0]] + (c[1..i] + c[i + 1..]) == c[..i] + c[i + 1..];
    }
  }

  /** Distinct codes are as many as the entries that carry them. */
  lemma {:induction false} CodesCount(c: seq<Spec.Entry>, codes: set<string>)
    requires Spec.Distinct(c)
    requires codes == set i | 0 <= i < |c| :: c[i].code
    ensures |codes| == |c|
  {
    if c != [] {
      var rest := set i | 0 <= i < |c[1..]| :: c[1..][i].code;
      CodesCount(c[1..], rest);
      forall x
        ensures x in codes - {c[0].code} <==> x in rest
      {
        if x in rest {
          var i :| 0 <= i < |c[1..]| && c[1..][i].code == x;
          assert c[i + 1].code == x;
        }
        if x in codes - {c[0].code} {
          var i :| 0 <= i < |c| && c[i].code == x;
          assert c[1..][i - 1].code == x;
        }
      }
      assert codes - {c[0].code} == rest;
      assert c[0].code in codes;
    }
  }

  /** The map and the list hold the same elements, each under its own code. */
  ghost predicate Agree(items: map<string, Element>, nodes: seq<Element>) {
    && (forall i, j :: 0 <= i < j < |nodes| ==> nodes[i].code != nodes[j].code)
    && (forall i :: 0 <= i < |nodes| ==> nodes[i].code in items && items[nodes[i].code] == nodes[i])
    && (forall code :: code in items ==> items[code] in nodes && items[code].code == code)
  }

  lemma AgreeWithout(items: map<string, Element>, nodes: seq<Element>, at: nat, rest: seq<Element>)
    requires Agree(items, nodes) && at < |nodes| && rest == nodes[..at] + nodes[at + 1..]
    ensures Agree(items - {nodes[at].code}, rest) && nodes[at] !in rest
    ensures forall n :: n in rest ==> n in nodes
  {
    assert forall i :: 0 <= i < |rest| ==> rest[i] == nodes[if i < at then i else i + 1];
    forall code | code in items && code != nodes[at].code
      ensures items[code] in rest
    {
      var i :| 0 <= i < |nodes| && nodes[i] == items[code];
      assert rest[if i < at then i else i - 1] == items[code];
    }
  }

  lemma AgreeWith(items: map<string, Element>, nodes: seq<Element>, e: Element)
    requires Agree(items, nodes) && e.code !in items
    ensures Agree(items[e.code := e], [e] + nodes)
  {
    var more := [e] + nodes;
    assert forall i :: 0 < i < |more| ==> more[i] == nodes[i - 1];
    forall code | code in items
      ensures items[code] in more
    {
      assert items[code] in nodes;
    }
  }

  class Local {
    var items: map<string, Element>
    const lru: LruList
    const maxEntries: nat

    ghost predicate Valid()
      reads this, lru, lru.nodes
    {
      && lru.Valid()
      && 0 < maxEntries && |lru.nodes| <= maxEntries
      && Agree(items, lru.nodes)
    }

    /** The recency list. */
    ghost function Contents(): seq<Spec.Entry>
      reads this, lru, lru.nodes
    {
      Entries(lru.nodes)
    }

    ghost function Repr(): set<object>
      reads this, lru
    {
      {this, lru} + set n | n in lru.nodes :: n
    }

    constructor (maxEntries: int)
      ensures Valid() && Contents() == [] && fresh(Repr())
      ensures this.maxEntries == if maxEntries <= 0 then 10000 else maxEntries
    {
      this.maxEntries := if maxEntries <= 0 then 10000 else maxEntries;
      items := map[];
      lru := new LruList();
    }

    lemma CodesDistinct()
      requires Valid()
      ensures Spec.Distinct(Contents())
    {
    }

    lemma ContentsAt()
      requires Valid()
      ensures Spec.Distinct(Contents())
      ensures forall i :: 0 <= i < |lru.nodes| ==> Contents()[i] == EntryOf(lru.nodes[i])
    {
    }

    ghost function At(e: Element): (i: nat)
      requires e in lru.nodes
      reads this, lru
      ensures i < |lru.nodes| && lru.nodes[i] == e
    {
      var i :| 0 <= i < |lru.nodes| && lru.nodes[i] == e;
      i
    }

    /** The map finds what a search of the list would find. */
    lemma Finds(code: string)
      requires Valid()
      ensures code in items ==> Spec.Lookup(Contents(), code) == Some(EntryOf(items[code]))
      ensures code !in items ==> Spec.Lookup(Contents(), code) == None
    {
      ContentsAt();
      var c := Contents();
      if code in items {
        LookupAt(c, At(items[code]));
      } else {
        Spec.LookupIn(c, code);
      }
    }

    lemma Counts()
      requires Valid()
      ensures |items| == |lru.nodes|
    {
      ContentsAt();
      var c := Contents();
      var codes := set i | 0 <= i < |c| :: c[i].code;
      CodesCount(c, codes);
      forall code
        ensures code in items.Keys <==> code in codes
      {
        if code in items {
          assert c[At(items[code])].code == code;
        }
      }
      assert items.Keys == codes;
    }

    /** Takes an element out of the list. */
    method Unlink(e: Element, ghost at: nat)
      requires lru.Valid() && at < |lru.nodes| && lru.nodes[at] == e && Spec.Distinct(Contents())
      modifies lru, (set n | n in lru.nodes)`prev, (set n | n in lru.nodes)`next
      ensures lru.Valid() && lru.nodes == old(lru.nodes[..at] + lru.nodes[at + 1..])
      ensures Contents() == Spec.Without(old(Contents()), e.code)
    {
      assert Contents()[at] == EntryOf(e);
      WithoutAt(Contents(), at);
      lru.Remove(e, at);
      assert Contents() == old(Contents())[..at] + old(Contents())[at + 1..];
    }

    /** Takes an element to the front of the list. */
    method Raise(e: Element, ghost at: nat)
      requires lru.Valid() && at < |lru.nodes| && lru.nodes[at] == e && Spec.Distinct(Contents())
      modifies lru, (set n | n in lru.nodes)`prev, (set n | n in lru.nodes)`next
      ensures lru.Valid() && lru.nodes == [e] + old(lru.nodes[..at] + lru.nodes[at + 1..])
      ensures Contents() == [EntryOf(e)] + Spec.Without(old(Contents()), e.code)
    {
      ghost var was := Contents();
      assert was[at] == EntryOf(e);
      WithoutAt(was, at);
      lru.MoveToFront(e, at);
      assert Contents() == [was[at]] + (was[..at] + was[at + 1..]);
    }

    method RemoveElement(e: Element)
      requires Valid() && e in lru.nodes
      modifies this, lru, (set n | n in lru.nodes)`prev, (set n | n in lru.nodes)`next
      ensures Valid() && Contents() == Spec.Without(old(Contents()), e.code)
      ensures forall n :: n in lru.nodes ==> n in old(lru.nodes)
    {
      ghost var at := At(e);
      CodesDistinct();
      AgreeWithout(items, lru.nodes, at, lru.nodes[..at] + lru.nodes[at + 1..]);
      Unlink(e, at);
      items := items - {e.code};
      assert lru.nodes == old(lru.nodes[..at] + lru.nodes[at + 1..]);
    }

    method MoveElement(e: Element)
      requires Valid() && e in lru.nodes
      modifies lru, (set n | n in lru.nodes)`prev, (set n | n in lru.nodes)`next
      ensures Valid() && Contents() == [EntryOf(e)] + Spec.Without(old(Contents()), e.code)
      ensures lru.nodes != [] && lru.nodes[0] == e
      ensures forall n :: n in lru.nodes ==> n in old(lru.nodes)
    {
      ghost var at := At(e);
      ghost var rest := lru.nodes[..at] + lru.nodes[at + 1..];
      CodesDistinct();
      AgreeWithout(items, lru.nodes, at, rest);
      AgreeWith(items - {e.code}, rest, e);
      assert (items - {e.code})[e.code := e] == items;
      Raise(e, at);
    }

    method Get(code: string, now: Time) returns (r: Option<ShortLink>)
      requires Valid()
      modifies Repr()
      ensures Valid() && forall n :: n in lru.nodes ==> n in old(lru.nodes)
      ensures r == Spec.GetHit(old(Contents()), code, now)
      ensures Contents() == Spec.AfterGet(old(Contents()), code, now)
    {
      Finds(code);
      if code !in items {
        return None;
      }
      var e := items[code];
      if e.expireAt != 0 && e.expireAt <= now {
        RemoveElement(e);
        return None;
      }
      MoveElement(e);
      return Some(e.value);
    }

    method Set(item: ShortLink, ttl: int, now: Time, evictNow: Time)
      requires Valid()
      modifies Repr()
      ensures Valid() && forall n :: n in lru.nodes ==> n in old(lru.nodes) || fresh(n)
      ensures Contents() == Spec.AfterSet(old(Contents()), maxEntries, item, ttl, now, evictNow)
    {
      var expireAt := if ttl > 0 then now + ttl else 0;
      Finds(item.code);
      if item.code in items {
        Replace(items[item.code], item, expireAt);
      } else {
        EvictIfFull(item.code, evictNow);
        Insert(item, expireAt);
      }
    }

    method Replace(e: Element, item: ShortLink, expireAt: Time)
      requires Valid() && e in lru.nodes && item.code == e.code
      modifies lru, (set n | n in lru.nodes)`prev, (set n | n in lru.nodes)`next, e`value, e`expireAt
      ensures Valid() && forall n :: n in lru.nodes ==> n in old(lru.nodes)
      ensures Contents() == [Spec.Entry(item.code, item, expireAt)] + Spec.Without(old(Contents()), e.code)
    {
      ghost var at := At(e);
      CodesDistinct();
      WithoutUpdated(Contents(), at, Spec.Entry(item.code, item, expireAt));
      Overwrite(e, at, item, expireAt);
      MoveElement(e);
    }

    method Overwrite(e: Element, ghost at: nat, item: ShortLink, expireAt: Time)
      requires Valid() && at < |lru.nodes| && lru.nodes[at] == e
      modifies e`value, e`expireAt
      ensures Valid() && e.value == item && e.expireAt == expireAt
      ensures Contents() == old(Contents())[at := Spec.Entry(e.code, item, expireAt)]
    {
      e.value, e.expireAt := item, expireAt;
      forall i | 0 <= i < |lru.nodes|
        ensures lru.LinkedAt(i)
      {
        assert old(lru.LinkedAt(i));
      }
    }

    method Prepend(e: Element)
      requires lru.Valid() && e !in lru.nodes
      modifies lru, e`prev, e`next, (set n | n in lru.nodes)`prev
      ensures lru.Valid() && lru.nodes == [e] + old(lru.nodes)
      ensures Contents() == [EntryOf(e)] + old(Contents())
    {
      lru.PushFront(e);
      assert Contents()[1..] == old(Contents());
    }

    method Insert(item: ShortLink, expireAt: Time)
      requires Valid() && |lru.nodes| < maxEntries && item.code !in items
      modifies this, lru, (set n | n in lru.nodes)`prev
      ensures Valid() && forall n :: n in lru.nodes ==> n in old(lru.nodes) || fresh(n)
      ensures Contents() == [Spec.Entry(item.code, item, expireAt)] + old(Contents())
    {
      var e := new Element(item.code, item, expireAt);
      AgreeWith(items, lru.nodes, e);
      Prepend(e);
      items := items[item.code := e];
    }

    method EvictIfFull(ghost code: string, now: Time)
      requires Valid() && code !in items
      modifies this, lru, (set n | n in lru.nodes)`prev, (set n | n in lru.nodes)`next
      ensures Valid() && |lru.nodes| < maxEntries && code !in items
      ensures Contents() == Spec.MakeRoom(old(Contents()), maxEntries, now)
      ensures forall n :: n in lru.nodes ==> n in old(lru.nodes)
    {
      Counts();
      if |items| >= maxEntries {
        Finds(code);
        CodesDistinct();
        RoomWithout(Contents(), now, code);
        EvictOne(now);
        Finds(code);
      }
    }

    method EvictOne(now: Time)
      requires Valid() && lru.nodes != []
      modifies this, lru, (set n | n in lru.nodes)`prev, (set n | n in lru.nodes)`next
      ensures Valid()
      ensures Contents() == Spec.Without(old(Contents()), Spec.Victim(old(Contents()), now))
      ensures forall n :: n in lru.nodes ==> n in old(lru.nodes)
    {
      var element := BackmostDead(now);
      if element != null {
        RemoveElement(element);
      } else {
        RemoveElement(lru.back);
      }
    }

    /** Walks the list from its back to an entry whose deadline has passed. */
    method BackmostDead(now: Time) returns (element: Element?)
      requires Valid() && lru.nodes != []
      ensures element != null ==> element in lru.nodes && element.code == Spec.Victim(Contents(), now)
      ensures element == null ==> lru.back != null && lru.back.code == Spec.Victim(Contents(), now)
    {
      ghost var c := Contents();
      element := lru.back;
      ghost var i := |c| - 1;
      while element != null
        invariant -1 <= i < |c|
        invariant element == (if i < 0 then null else lru.nodes[i])
        invariant Spec.LastDead(c[i + 1..], now) == None
        decreases i
      {
        assert lru.LinkedAt(i) && c[i] == EntryOf(element);
        if element.expireAt != 0 && element.expireAt <= now {
          DeadVictim(c, i, now);
          return;
        }
        LastDeadCons(c, i, now);
        element := element.prev;
        i := i - 1;
      }
      OldestVictim(c, now);
      assert c[|c| - 1] == EntryOf(lru.back);
    }

    method Delete(codes: seq<string>)
      requires Valid()
      modifies Repr()
      ensures Valid() && forall n :: n in lru.nodes ==> n in old(lru.nodes)
      ensures Contents() == Spec.AfterDelete(old(Contents()), codes)
    {
      for k := 0 to |codes|
        invariant Valid() && forall n :: n in lru.nodes ==> n in old(lru.nodes)
        invariant Contents() == Spec.AfterDelete(old(Contents()), codes[..k])
      {
        assert codes[..k + 1][..k] == codes[..k];
        Finds(codes[k]);
        if codes[k] in items {
          RemoveElement(items[codes[k]]);
        } else {
          ContentsAt();
          Spec.WithoutIn(Contents(), codes[k]);
        }
      }
      assert codes[..|codes|] == codes;
    }
  }

  lemma LastDeadCons(c: seq<Spec.Entry>, i: nat, now: Time)
    requires i < |c| && Spec.LastDead(c[i + 1..], now) == None
    ensures Spec.LastDead(c[i..], now) == if c[i].Dead(now) then Some(c[i].code) else None
  {
    assert c[i..][1..] == c[i + 1..];
  }

  lemma {:induction false} LastDeadFrom(c: seq<Spec.Entry>, i: nat, now: Time)
    requires i <= |c| && Spec.LastDead(c[i..], now).Some?
    ensures Spec.LastDead(c, now) == Spec.LastDead(c[i..], now)
  {
    if i == 0 {
      assert c[0..] == c;
    } else {
      assert c[1..][i - 1..] == c[i..];
      LastDeadFrom(c[1..], i - 1, now);
    }
  }

  lemma WithoutUpdated(c: seq<Spec.Entry>, at: nat, e: Spec.Entry)
    requires Spec.Distinct(c) && at < |c| && e.code == c[at].code
    ensures Spec.Without(c[at := e], e.code) == Spec.Without(c, e.code)
  {
    WithoutAt(c, at);
    WithoutAt(c[at := e], at);
  }

  lemma DeadVictim(c: seq<Spec.Entry>, i: nat, now: Time)
    requires i < |c| && Spec.LastDead(c[i + 1..], now) == None && c[i].Dead(now)
    ensures Spec.Victim(c, now) == c[i].code
  {
    LastDeadCons(c, i, now);
    LastDeadFrom(c, i, now);
  }

  lemma OldestVictim(c: seq<Spec.Entry>, now: Time)
    requires c != [] && Spec.LastDead(c[0..], now) == None
    ensures Spec.Victim(c, now) == c[|c| - 1].code
  {
    assert c[0..] == c;
  }

  lemma RoomWithout(c: seq<Spec.Entry>, now: Time, code: string)
    requires c != [] && Spec.Distinct(c) && Spec.Lookup(c, code) == None
    ensures |Spec.Without(c, Spec.Victim(c, now))| == |c| - 1
    ensures Spec.Lookup(Spec.Without(c, Spec.Victim(c, now)), code) == None
  {
    Spec.VictimIn(c, now);
    Spec.WithoutIn(c, Spec.Victim(c, now));
    Spec.LookupWithout(c, Spec.Victim(c, now), code);
  }
}
