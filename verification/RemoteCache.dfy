/** The Redis cache of links (internal/infrastructure/cache/redis.go). */
module RemoteCache {
  import opened Options
  import opened Links

  /** A key's value, and when Redis lets it vanish. */
  datatype Stored = Stored(value: ShortLink, deadline: Option<Time>)

  /** A command fails, without effect, when `fails` says so for its number. */
  class Cache {
    var items: map<string, Stored>
    var commands: nat
    const fails: nat -> bool

    constructor (fails: nat -> bool)
      ensures items == map[] && commands == 0 && this.fails == fails
    {
      items, commands, this.fails := map[], 0, fails;
    }

    /** The latest command has failed. */
    ghost predicate LastFailed()
      reads this
    {
      commands > 0 && fails(commands - 1)
    }

    /** What a GET of `code` answers at `now`. */
    function Peek(code: string, now: Time): Option<ShortLink>
      reads this
    {
      if code in items && (items[code].deadline.None? || now < items[code].deadline.value) then Some(items[code].value) else None
    }

    method Get(code: string, now: Time) returns (ok: bool, r: Option<ShortLink>)
      modifies this`commands
      ensures ok == !fails(old(commands)) && commands == old(commands) + 1
      ensures r == if ok then Peek(code, now) else None
    {
      ok := !fails(commands);
      commands := commands + 1;
      r := if ok then Peek(code, now) else None;
    }

    /** SET, with an expiry if the time to live is positive. */
    method Set(item: ShortLink, ttl: int, now: Time) returns (ok: bool)
      modifies this
      ensures ok == !fails(old(commands)) && commands == old(commands) + 1
      ensures !ok ==> items == old(items)
      ensures ok ==> item.code in items && items[item.code].value == item && items == old(items)[item.code := items[item.code]]
      ensures ok ==> forall t :: Peek(item.code, t) == if ttl <= 0 || t < now + ttl then Some(item) else None
    {
      ok := !fails(commands);
      commands := commands + 1;
      if ok {
        items := items[item.code := Stored(item, if ttl > 0 then Some(now + ttl) else None)];
      }
    }

    /** One DEL of all the keys; no command at all for no codes. */
    method Delete(codes: seq<string>) returns (ok: bool)
      modifies this
      ensures ok == (codes == [] || !fails(old(commands)))
      ensures commands == old(commands) + if codes == [] then 0 else 1
      ensures items == if ok then old(items) - (set c | c in codes) else old(items)
    {
      if codes == [] {
        return true;
      }
      ok := !fails(commands);
      commands := commands + 1;
      if ok {
        items := items - set c | c in codes;
      }
    }
  }
}
