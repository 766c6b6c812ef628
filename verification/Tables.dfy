/** The shard tables as one set of rows, and the pages a keyset query reads from it
    (internal/infrastructure/mysql/short_link_repository.go).
 */
module Tables {
  import opened Options
  import opened Base62
  import opened Links

  datatype Order = ById | ByExpiry

  type Key = (int, int)

  /** ORDER BY id, or ORDER BY expire_at, id. */
  function KeyOf(order: Order, r: ShortLink): Key {
    (if order == ByExpiry && r.expireAt.Some? then r.expireAt.value else 0, r.id)
  }

  predicate Precedes(a: Key, b: Key) {
    a.0 < b.0 || (a.0 == b.0 && a.1 < b.1)
  }

  predicate InShard(r: ShortLink, shard: nat) {
    ShardIndexFromCode(r.code) == Some(shard)
  }

  /** The primary key of each shard table, and its unique code. */
  ghost predicate TableOk(rows: set<ShortLink>) {
    && (forall r :: r in rows ==> ShardIndexFromCode(r.code).Some?)
    && (forall a, b :: a in rows && b in rows && a.code == b.code ==> a == b)
    && (forall a, b :: a in rows && b in rows && SameKey(a, b) ==> a == b)
  }

  predicate SameKey(a: ShortLink, b: ShortLink) {
    a.id == b.id && ShardIndexFromCode(a.code) == ShardIndexFromCode(b.code)
  }

  /** WHERE id > lastID AND status = active AND (expire_at IS NULL OR expire_at > now) */
  function ActiveAfter(table: set<ShortLink>, shard: nat, lastID: uint64, now: Time): set<ShortLink> {
    set r | r in table && InShard(r, shard) && r.id > lastID && r.status == STATUS_ACTIVE
            && (r.expireAt == None || r.expireAt.value > now)
  }

  /** `page` is what ORDER BY ... LIMIT answers from the matching rows. */
  ghost predicate IsPage(rows: set<ShortLink>, order: Order, limit: nat, page: seq<ShortLink>) {
    && |page| <= limit
    && (forall i :: 0 <= i < |page| ==> page[i] in rows)
    && (forall i, j :: 0 <= i < j < |page| ==> Precedes(KeyOf(order, page[i]), KeyOf(order, page[j])))
    && (forall r :: r in rows && r !in page ==>
          |page| == limit && (page == [] || Precedes(KeyOf(order, page[|page| - 1]), KeyOf(order, r))))
  }

  function Codes(page: seq<ShortLink>): seq<string> {
    seq(|page|, i requires 0 <= i < |page| => page[i].code)
  }

  function CodeSet(page: seq<ShortLink>): (codes: set<string>)
    ensures forall r :: r in page ==> r.code in codes
  {
    set r | r in page :: r.code
  }

  /** Past the cursor, unless its time is Go's zero time. */
  predicate Past(cursor: Key, r: ShortLink) {
    cursor.0 == 0 || Precedes(cursor, KeyOf(ByExpiry, r))
  }

  /** WHERE expire_at IS NOT NULL AND expire_at <= before, and past the cursor. */
  function ExpiredAfter(table: set<ShortLink>, shard: nat, before: Time, cursor: Key): set<ShortLink> {
    set r | r in table && InShard(r, shard) && r.expireAt != None && r.expireAt.value <= before && Past(cursor, r)
  }

  // --------------------------------------------------------- answering a query

  ghost predicate KeysUnique(rows: set<ShortLink>) {
    forall a, b :: a in rows && b in rows && a.id == b.id ==> a == b
  }

  lemma {:induction false} HasFirst(rows: set<ShortLink>, order: Order) returns (m: ShortLink)
    requires rows != {} && KeysUnique(rows)
    ensures m in rows && forall r :: r in rows && r != m ==> Precedes(KeyOf(order, m), KeyOf(order, r))
    decreases |rows|
  {
    var some :| some in rows;
    m := some;
    var rest := rows - {some};
    assert forall r :: r in rows && r != some ==> r in rest;
    if rest != {} {
      var n := HasFirst(rest, order);
      if Precedes(KeyOf(order, n), KeyOf(order, m)) {
        m := n;
      }
    }
  }

  /** SELECT ... FROM rows ORDER BY ... LIMIT limit */
  method Select(rows: set<ShortLink>, order: Order, limit: nat) returns (page: seq<ShortLink>)
    requires KeysUnique(rows)
    ensures IsPage(rows, order, limit, page)
  {
    page := [];
    var rest := rows;
    while |page| < limit && rest != {}
      invariant |page| <= limit && rest == rows - set r | r in page
      invariant forall r :: r in page ==> r in rows
      invariant forall i, j :: 0 <= i < j < |page| ==> Precedes(KeyOf(order, page[i]), KeyOf(order, page[j]))
      invariant forall r, i :: r in rest && 0 <= i < |page| ==> Precedes(KeyOf(order, page[i]), KeyOf(order, r))
      decreases rest
    {
      ghost var m := HasFirst(rest, order);
      var first :| first in rest && forall r :: r in rest && r != first ==> Precedes(KeyOf(order, first), KeyOf(order, r));
      page := page + [first];
      rest := rest - {first};
    }
    forall r | r in rows && r !in page
      ensures |page| == limit && (page == [] || Precedes(KeyOf(order, page[|page| - 1]), KeyOf(order, r)))
    {
      assert r in rest;
    }
  }

  /** Every query has an answer. */
  lemma {:induction false} PageExists(rows: set<ShortLink>, order: Order, limit: nat) returns (page: seq<ShortLink>)
    requires KeysUnique(rows)
    ensures IsPage(rows, order, limit, page)
    decreases limit
  {
    page := [];
    if rows != {} && limit > 0 {
      var first := HasFirst(rows, order);
      var more := PageExists(rows - {first}, order, limit - 1);
      page := [first] + more;
      forall r | r in rows && r !in page
        ensures |page| == limit && Precedes(KeyOf(order, page[|page| - 1]), KeyOf(order, r))
      {
        assert r in rows - {first} && r !in more;
      }
    }
  }

  // ------------------------------------------------------------ looking up a code

  datatype Lookup = Found(item: ShortLink) | NotFound | Expired | InvalidCode

  /** What a direct read of the table answers (FindActiveByCode). */
  ghost function DirectLookup(table: set<ShortLink>, code: string, now: Time): Lookup {
    if IDFromShortCode(code).None? then InvalidCode
    else if r :| r in table && r.code == code then
      if r.IsExpired(now) then Expired else if r.status != STATUS_ACTIVE then NotFound else Found(r)
    else NotFound
  }

  /** The four answers, in the terms of the table's columns. */
  lemma LookupByColumns(table: set<ShortLink>, code: string, now: Time)
    requires TableOk(table)
    ensures DirectLookup(table, code, now) == InvalidCode <==> IDFromShortCode(code).None?
    ensures forall r :: DirectLookup(table, code, now) == Found(r) <==>
              r in table && r.code == code && r.status == 1 && (r.expireAt == None || now < r.expireAt.value)
    ensures DirectLookup(table, code, now) == Expired <==>
              exists r :: r in table && r.code == code && r.expireAt != None && r.expireAt.value <= now
  {
    if r :| r in table && r.code == code {
      assert ShardIndexFromCode(code).Some?;
    }
  }

  lemma FoundMeansActive(table: set<ShortLink>, code: string, now: Time, item: ShortLink)
    requires TableOk(table)
    ensures DirectLookup(table, code, now) == Found(item) <==>
              item in table && item.code == code && item.IsActive(now)
  {
  }

  function ActiveCodes(rows: set<ShortLink>, now: Time): set<string> {
    set r | r in rows && r.IsActive(now) :: r.code
  }

  lemma FoundExactlyWhen(table: set<ShortLink>, code: string, now: Time)
    requires TableOk(table)
    ensures DirectLookup(table, code, now).Found? <==> code in ActiveCodes(table, now)
  {
    if code in ActiveCodes(table, now) {
      var r :| r in table && r.code == code && r.IsActive(now);
      FoundMeansActive(table, code, now, r);
    }
  }

  /** The answer is an item exactly when a direct read of the table finds one, and then it is
      the same item; failures may differ in kind. */
  ghost predicate Agrees(table: set<ShortLink>, code: string, now: Time, answer: Lookup) {
    var direct := DirectLookup(table, code, now);
    (answer.Found? <==> direct.Found?) && (answer.Found? ==> answer == direct)
  }
}
