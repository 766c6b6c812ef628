/** The part of a Redis server the filter uses: one marker key and Bloom filters by key,
    each command one atomic function (internal/infrastructure/filter/bloom.go).

    A Bloom filter is the set of codes added to it: BF.EXISTS never misses one of them.
 */
module RedisStore {
  import opened Options

  datatype Redis = Redis(marker: Option<string>, filters: map<string, set<string>>) {
    /** What BF.EXISTS is sure to find under `key`; a missing key holds nothing. */
    function Filter(key: string): set<string> {
      if key in filters then filters[key] else {}
    }

    function SetMarker(temp: string): Redis {
      this.(marker := Some(temp))
    }

    function DelMarker(): Redis {
      this.(marker := None)
    }

    /** BF.RESERVE, with the "item exists" answer accepted. */
    function Reserve(key: string): Redis {
      if key in filters then this else this.(filters := filters[key := {}])
    }

    /** BF.ADD and BF.MADD create a missing key. */
    function Add(key: string, codes: set<string>): Redis {
      this.(filters := filters[key := Filter(key) + codes])
    }

    function Del(key: string): Redis {
      this.(filters := filters - {key})
    }

    /** The script swaps `temp` in when the marker still names it.  RENAME fails, and the
        script with it, when there is no such key. */
    predicate Swaps(temp: string) {
      marker == Some(temp) && temp in filters
    }

    function FinishScript(main: string, temp: string): Redis {
      if Swaps(temp)
      then Redis(None, (filters - {temp})[main := filters[temp]])
      else this
    }
  }

  /** The server as one client sees it.  The k-th command fails, without effect, if
      `fails(k)`. */
  class RedisServer {
    var store: Redis
    var commands: nat
    const fails: nat -> bool

    constructor (store: Redis, fails: nat -> bool)
      ensures this.store == store && commands == 0 && this.fails == fails
    {
      this.store, this.commands, this.fails := store, 0, fails;
    }

    /** The latest command has failed. */
    ghost predicate LastFailed()
      reads this
    {
      commands > 0 && fails(commands - 1)
    }

    ghost predicate FailedSince(first: nat)
      reads this
    {
      exists k :: first <= k < commands && fails(k)
    }

    method Perform(result: Redis) returns (ok: bool)
      modifies this
      ensures ok == !fails(old(commands)) && commands == old(commands) + 1
      ensures store == if ok then result else old(store)
    {
      ok := !fails(commands);
      commands := commands + 1;
      if ok {
        store := result;
      }
    }
  }
}
