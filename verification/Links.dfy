/** The short link entity and the routing of codes to the sixteen shard tables
    (internal/domain/link/model.go, code.go, shard.go).
 */
module Links {
  import opened Options
  import opened Base62

  type Time = int // an instant, in nanoseconds; zero is Go's zero time

  const MINUTE: int := 60_000_000_000
  const HOUR: int := 60 * MINUTE

  const STATUS_ACTIVE: nat := 1
  const SHARD_COUNT: nat := 16

  datatype ShortLink = ShortLink(
    id: uint64,
    code: string,
    longURL: string,
    domain: string,
    expireAt: Option<Time>,
    status: nat,
    createdAt: Time,
    updatedAt: Time)
  {
    predicate IsExpired(now: Time) {
      expireAt.Some? && expireAt.value <= now
    }

    predicate IsActive(now: Time) {
      status == STATUS_ACTIVE && !IsExpired(now)
    }
  }

  // ------------------------------------------------------------------- codes

  /** Unicode White_Space, the class strings.TrimSpace removes. */
  predicate IsSpace(c: char) {
    var n := c as int;
    0x09 <= n <= 0x0D || n == 0x20 || n == 0x85 || n == 0xA0 || n == 0x1680 || 0x2000 <= n <= 0x200A ||
    n == 0x2028 || n == 0x2029 || n == 0x202F || n == 0x205F || n == 0x3000
  }

  lemma AsciiSpaces(c: char)
    requires c as int < 128
    ensures IsSpace(c) <==> c in [9 as char, 10 as char, 11 as char, 12 as char, 13 as char, ' ']
  {
  }

  function TrimSpace(s: string): string {
    if s != "" && IsSpace(s[0]) then TrimSpace(s[1..])
    else if s != "" && IsSpace(s[|s| - 1]) then TrimSpace(s[..|s| - 1])
    else s
  }

  /** Trimming takes white space off both ends, and all of it. */
  lemma {:induction false} TrimSpaceExactly(s: string) returns (i: nat, j: nat)
    ensures i <= j <= |s| && TrimSpace(s) == s[i..j]
    ensures (forall k :: 0 <= k < i ==> IsSpace(s[k])) && (forall k :: j <= k < |s| ==> IsSpace(s[k]))
    ensures i < j ==> !IsSpace(s[i]) && !IsSpace(s[j - 1])
    ensures i < j <==> exists k :: 0 <= k < |s| && !IsSpace(s[k])
  {
    if s != "" && IsSpace(s[0]) {
      i, j := TrimSpaceExactly(s[1..]);
      assert s[1..][i..j] == s[i + 1..j + 1];
      assert forall k :: 0 <= k < |s[1..]| ==> s[1..][k] == s[k + 1];
      i, j := i + 1, j + 1;
    } else if s != "" && IsSpace(s[|s| - 1]) {
      i, j := TrimSpaceExactly(s[..|s| - 1]);
      assert s[..|s| - 1][i..j] == s[i..j];
    } else {
      i, j := 0, |s|;
    }
  }

  lemma {:induction false} TrimSpaceAround(before: string, s: string, after: string)
    requires (forall c :: c in before ==> IsSpace(c)) && (forall c :: c in after ==> IsSpace(c))
    requires s != "" && !IsSpace(s[0]) && !IsSpace(s[|s| - 1])
    ensures TrimSpace(before + s + after) == s
    decreases |before| + |after|
  {
    var all := before + s + after;
    if before != "" {
      assert before[0] in before;
      assert all[1..] == before[1..] + s + after;
      TrimSpaceAround(before[1..], s, after);
    } else if after != "" {
      assert after[|after| - 1] in after;
      assert all[..|all| - 1] == before + s + after[..|after| - 1];
      assert all[0] == s[0];
      TrimSpaceAround(before, s, after[..|after| - 1]);
    } else {
      assert all == s;
    }
  }

  function NewShortCode(id: uint64): string {
    Encode(id)
  }

  function IDFromShortCode(code: string): Option<uint64> {
    Decode(TrimSpace(code))
  }

  lemma TrimLeavesCodes(s: string)
    requires IsCode(s)
    ensures TrimSpace(s) == s
  {
    if s != "" {
      assert DigitOf(s[0]).Some? && DigitOf(s[|s| - 1]).Some?;
    }
  }

  lemma IssuedCodeIsValid(id: uint64)
    ensures IDFromShortCode(NewShortCode(id)) == Some(id)
  {
    EncodeDenotes(id);
    TrimLeavesCodes(Encode(id));
    RoundTrip(id);
  }

  /** White space around an issued code does not matter. */
  lemma SpaceAroundCodes(before: string, id: uint64, after: string)
    requires (forall c :: c in before ==> IsSpace(c)) && (forall c :: c in after ==> IsSpace(c))
    ensures IDFromShortCode(before + NewShortCode(id) + after) == Some(id)
  {
    EncodeDenotes(id);
    var code := NewShortCode(id);
    assert DigitOf(code[0]).Some? && DigitOf(code[|code| - 1]).Some?;
    TrimSpaceAround(before, code, after);
    RoundTrip(id);
  }

  // ------------------------------------------------------------------ shards

  function ShardIndexFromID(id: uint64): nat {
    id % SHARD_COUNT
  }

  function ShardIndexFromCode(code: string): Option<nat> {
    match IDFromShortCode(code)
    case None => None
    case Some(id) => Some(ShardIndexFromID(id))
  }

  function ShardTableName(index: int): Option<string> {
    if 0 <= index < SHARD_COUNT
    then Some("short_link_" + [NUMERALS[index / 10], NUMERALS[index % 10]])
    else None
  }

  function ShardTableNameForCode(code: string): Option<string> {
    match ShardIndexFromCode(code)
    case None => None
    case Some(i) => ShardTableName(i)
  }

  /** An issued code and the id it was issued for route to the same, existing table. */
  lemma CodeAndIdRouteAlike(id: uint64)
    ensures ShardTableNameForCode(NewShortCode(id)) == ShardTableName(ShardIndexFromID(id))
    ensures ShardTableName(ShardIndexFromID(id)).Some?
  {
    IssuedCodeIsValid(id);
  }

  /** A table name ends in the two decimal digits of its shard; there is none out of range. */
  lemma TableNameSpells(i: int)
    ensures ShardTableName(i).None? <==> i < 0 || i > 15
    ensures ShardTableName(i).Some? ==>
              var name := ShardTableName(i).value;
              && |name| == 13 && name[..11] == "short_link_"
              && '0' <= name[11] <= '9' && '0' <= name[12] <= '9'
              && (name[11] as int - '0' as int) * 10 + (name[12] as int - '0' as int) == i
  {
    if ShardTableName(i).Some? {
      Blocks();
      assert NUMERALS[i / 10] as int == '0' as int + i / 10 && NUMERALS[i % 10] as int == '0' as int + i % 10;
    }
  }

  /** Two shards never share a table. */
  lemma TableNamesAreDistinct(i: int, j: int)
    requires ShardTableName(i).Some? && ShardTableName(i) == ShardTableName(j)
    ensures i == j
  {
    var a, b := ShardTableName(i).value, ShardTableName(j).value;
    assert a[11] == NUMERALS[i / 10] && a[12] == NUMERALS[i % 10];
    assert b[11] == NUMERALS[j / 10] && b[12] == NUMERALS[j % 10];
    Blocks();
  }

  /** Decoding may wrap around 64 bits, but never changes the shard: 16 divides 2^64. */
  lemma WrapKeepsShard(code: string)
    requires code != "" && IsCode(code)
    ensures ShardIndexFromCode(code) == Some(Value(code) % SHARD_COUNT)
  {
    TrimLeavesCodes(code);
    var v := Value(code);
    assert v == v / TWO_64 * TWO_64 + v % TWO_64;
    ModAddMultiple(v % TWO_64, v / TWO_64 * (TWO_64 / SHARD_COUNT), SHARD_COUNT);
  }

  /** The shard depends on the last four characters only: 16 divides 62^4. */
  lemma ShardFromLastFour(s: string)
    requires IsCode(s) && |s| >= 4
    ensures ShardIndexFromCode(s) == ShardIndexFromCode(s[|s| - 4..])
  {
    var front, back := s[..|s| - 4], s[|s| - 4..];
    assert s == front + back;
    CodesConcat(front, back);
    ValueConcat(front, back);
    assert Pow62(4) == 923521 * SHARD_COUNT;
    WrapKeepsShard(s);
    WrapKeepsShard(back);
    assert Value(s) == Value(back) + Value(front) * 923521 * SHARD_COUNT;
    ModAddMultiple(Value(back), Value(front) * 923521, SHARD_COUNT);
  }
}
