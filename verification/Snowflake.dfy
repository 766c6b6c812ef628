/** The id generator (internal/domain/link/snowflake.go).

    Times are milliseconds since the generator's epoch and may be negative or go
    backwards.  An id is packed by shifting into 64 bits; the packed fields are
    disjoint, so the program's shifts, ors and masks are written as multiplications,
    sums and remainders, with the wrap-around at 64 bits kept.
 */
module Snowflake {
  import opened Base62
  import opened Links

  const MAX_NODE: nat := 1023
  const SEQUENCES: nat := 4096
  const TIME_UNIT: nat := 0x40_0000 // 2^22: node and sequence bits
  const TWO_42: nat := 0x400_0000_0000
  const EPOCH_UNIX: int := 1767225600000 // 2026-01-01 00:00:00 UTC

  /** Days from 1970-01-01 to the first day of a year, in the Gregorian calendar. */
  function DaysTo(year: nat): int
    requires year >= 1970
  {
    365 * (year - 1970) + (year - 1969) / 4 - (year - 1901) / 100 + (year - 1601) / 400
  }

  lemma EpochIsNewYear2026()
    ensures EPOCH_UNIX == DaysTo(2026) * 86_400_000
  {
  }

  datatype Generator = Generator(node: nat, lastMs: nat, sequence: nat) {
    predicate Valid() {
      node <= MAX_NODE && sequence < SEQUENCES
    }
  }

  datatype Parts = Parts(timestamp: int, node: int, sequence: int)

  /** uint64(ms << 22 | node << 12 | sequence) */
  function Pack(ms: nat, node: nat, sequence: nat): uint64
    requires node <= MAX_NODE && sequence < SEQUENCES
  {
    assert ms * TIME_UNIT % TWO_64 <= TWO_64 - TIME_UNIT by { ShiftLeavesRoom(ms); }
    ms * TIME_UNIT % TWO_64 + node * SEQUENCES + sequence
  }

  function IdOf(g: Generator): uint64
    requires g.Valid()
  {
    Pack(g.lastMs, g.node, g.sequence)
  }

  function ToInt64(n: uint64): int {
    if n < TWO_64 / 2 then n else n - TWO_64
  }

  /** Arithmetic shifts and masks of the signed word: floor division and remainder. */
  function Parse(id: uint64): Parts {
    var w := ToInt64(id);
    Parts(EPOCH_UNIX + w / TIME_UNIT, w / SEQUENCES % (MAX_NODE + 1), w % SEQUENCES)
  }

  lemma ShiftLeavesRoom(ms: nat)
    ensures ms * TIME_UNIT % TWO_64 == ms % TWO_42 * TIME_UNIT
  {
    var q, r := ms / TWO_42, ms % TWO_42;
    assert ms * TIME_UNIT == r * TIME_UNIT + q * TWO_64;
    ModAddMultiple(r * TIME_UNIT, q, TWO_64);
  }

  // ------------------------------------------------------------------- NextID

  /** The generator after one NextID, given its first clock reading and, in case the
      sequence is used up, the reading with which the wait for the next millisecond ended.
   */
  function Next(g: Generator, reading: int, waited: int): (g': Generator)
    requires g.Valid()
    requires MustWait(g, reading) ==> g.lastMs < waited
    ensures g'.Valid()
  {
    if reading > g.lastMs then g.(lastMs := reading, sequence := 0)
    else if MustWait(g, reading) then g.(lastMs := waited, sequence := 0)
    else g.(sequence := g.sequence + 1)
  }

  predicate MustWait(g: Generator, reading: int) {
    reading <= g.lastMs && g.sequence + 1 == SEQUENCES
  }

  class Clock {
    const unixMilli: nat -> int // every reading there will ever be, in order
    var pos: nat

    ghost predicate Passes(from: nat, ms: int) {
      exists k :: k > from && unixMilli(k) - EPOCH_UNIX > ms
    }

    /** Whatever it does meanwhile, the clock gets past every millisecond in the end. */
    ghost predicate Advances() {
      forall from: nat, ms: int :: Passes(from, ms)
    }

    constructor (unixMilli: nat -> int)
      ensures this.unixMilli == unixMilli && pos == 0
    {
      this.unixMilli := unixMilli;
      pos := 0;
    }

    method Now() returns (t: int)
      modifies this
      ensures t == unixMilli(old(pos)) && pos == old(pos) + 1
    {
      t := unixMilli(pos);
      pos := pos + 1;
    }
  }

  class SnowflakeGenerator {
    const node: nat
    var lastMs: int
    var sequence: int

    ghost predicate Valid()
      reads this
    {
      0 <= lastMs && 0 <= sequence < SEQUENCES && node <= MAX_NODE
    }

    ghost function State(): (g: Generator)
      requires Valid()
      reads this
      ensures g.Valid()
    {
      Generator(node, lastMs, sequence)
    }

    constructor (node: nat)
      requires node <= MAX_NODE
      ensures Valid() && State() == Generator(node, 0, 0)
    {
      this.node := node;
      lastMs, sequence := 0, 0;
    }

    /** Loops until a reading passes `last`; the readings before it are skipped. */
    method WaitNextMillis(clock: Clock, last: int) returns (ms: int)
      requires exists k :: k >= clock.pos && clock.unixMilli(k) - EPOCH_UNIX > last
      modifies clock
      ensures old(clock.pos) < clock.pos && ms == clock.unixMilli(clock.pos - 1) - EPOCH_UNIX > last
      ensures forall k :: old(clock.pos) <= k < clock.pos - 1 ==> clock.unixMilli(k) - EPOCH_UNIX <= last
    {
      ghost var end :| end >= clock.pos && clock.unixMilli(end) - EPOCH_UNIX > last;
      var now := clock.Now();
      ms := now - EPOCH_UNIX;
      while ms <= last
        invariant old(clock.pos) < clock.pos && ms == clock.unixMilli(clock.pos - 1) - EPOCH_UNIX
        invariant forall k :: old(clock.pos) <= k < clock.pos - 1 ==> clock.unixMilli(k) - EPOCH_UNIX <= last
        invariant ms <= last ==> clock.pos <= end
        decreases end - clock.pos
      {
        now := clock.Now();
        ms := now - EPOCH_UNIX;
      }
    }

    method NextID(clock: Clock) returns (id: uint64)
      requires Valid()
      requires MustWait(State(), clock.unixMilli(clock.pos) - EPOCH_UNIX) ==> clock.Passes(clock.pos, lastMs)
      modifies this, clock
      ensures Valid() && old(clock.pos) < clock.pos
      ensures var first, last := clock.unixMilli(old(clock.pos)) - EPOCH_UNIX, clock.unixMilli(clock.pos - 1) - EPOCH_UNIX;
              && (MustWait(old(State()), first) ==> old(lastMs) < last)
              && State() == Next(old(State()), first, last)
      ensures id == IdOf(State())
      ensures clock.unixMilli(old(clock.pos)) - EPOCH_UNIX > old(lastMs) ==>
                clock.pos == old(clock.pos) + 1 && lastMs == clock.unixMilli(old(clock.pos)) - EPOCH_UNIX && sequence == 0
      ensures clock.unixMilli(old(clock.pos)) - EPOCH_UNIX <= old(lastMs) && old(sequence) < 4095 ==>
                clock.pos == old(clock.pos) + 1 && id == old(IdOf(State())) + 1
      ensures clock.unixMilli(old(clock.pos)) - EPOCH_UNIX <= old(lastMs) && old(sequence) == 4095 ==>
                && clock.pos > old(clock.pos) + 1 && lastMs == clock.unixMilli(clock.pos - 1) - EPOCH_UNIX > old(lastMs)
                && sequence == 0
                && forall k :: old(clock.pos) < k < clock.pos - 1 ==> clock.unixMilli(k) - EPOCH_UNIX <= old(lastMs)
    {
      var now := clock.Now();
      var nowMs := now - EPOCH_UNIX;
      if nowMs < lastMs {
        nowMs := lastMs;
      }
      if nowMs == lastMs {
        sequence := (sequence + 1) % SEQUENCES;
        if sequence == 0 {
          nowMs := WaitNextMillis(clock, lastMs);
        }
      } else {
        sequence := 0;
      }
      lastMs := nowMs;
      id := Pack(nowMs, node, sequence);
    }
  }

  /** Null stands for the error on a node id that does not fit its ten bits. */
  method NewSnowflake(nodeID: int) returns (g: SnowflakeGenerator?)
    ensures g == null <==> nodeID < 0 || nodeID > MAX_NODE
    ensures g != null ==> fresh(g) && g.Valid() && g.State() == Generator(nodeID, 0, 0)
  {
    g := null;
    if 0 <= nodeID <= MAX_NODE {
      g := new SnowflakeGenerator(nodeID);
    }
  }

  // --------------------------------------------------------- what ids promise

  /** The clock readings one NextID used: its first, and the one its wait ended with. */
  datatype Call = Call(reading: int, waited: int)

  ghost predicate IsRun(g: Generator, calls: seq<Call>)
    decreases |calls|, 0
  {
    g.Valid() && (calls == [] || (
      var before, call := calls[..|calls| - 1], calls[|calls| - 1];
      IsRun(g, before) && (MustWait(After(g, before), call.reading) ==> After(g, before).lastMs < call.waited)))
  }

  /** The generator after a run of calls. */
  ghost function After(g: Generator, calls: seq<Call>): (g': Generator)
    requires IsRun(g, calls)
    ensures g'.Valid() && g'.node == g.node
    decreases |calls|, 1
  {
    if calls == [] then g
    else Next(After(g, calls[..|calls| - 1]), calls[|calls| - 1].reading, calls[|calls| - 1].waited)
  }

  lemma {:induction false} PrefixOfRun(g: Generator, calls: seq<Call>, k: nat)
    requires IsRun(g, calls) && k <= |calls|
    ensures IsRun(g, calls[..k])
    ensures After(g, calls[..k]).lastMs <= After(g, calls).lastMs
  {
    if k == |calls| {
      assert calls[..k] == calls;
    } else {
      var before := calls[..|calls| - 1];
      PrefixOfRun(g, before, k);
      assert before[..k] == calls[..k];
    }
  }

  /** The id the k-th call of a run returned. */
  ghost function Issued(g: Generator, calls: seq<Call>, k: nat): uint64
    requires IsRun(g, calls) && k < |calls|
  {
    PrefixOfRun(g, calls, k + 1);
    IdOf(After(g, calls[..k + 1]))
  }

  /** One more call adds its id and changes none before. */
  lemma OneMoreCall(g: Generator, calls: seq<Call>, call: Call)
    requires IsRun(g, calls) && (MustWait(After(g, calls), call.reading) ==> After(g, calls).lastMs < call.waited)
    ensures IsRun(g, calls + [call])
    ensures After(g, calls + [call]) == Next(After(g, calls), call.reading, call.waited)
    ensures Issued(g, calls + [call], |calls|) == IdOf(After(g, calls + [call]))
    ensures forall k :: 0 <= k < |calls| ==> Issued(g, calls + [call], k) == Issued(g, calls, k)
  {
    var more := calls + [call];
    assert more[..|calls|] == calls && more[..|calls| + 1] == more;
    forall k | 0 <= k < |calls|
      ensures Issued(g, more, k) == Issued(g, calls, k)
    {
      assert more[..k + 1] == calls[..k + 1];
      PrefixOfRun(g, more, k + 1);
      PrefixOfRun(g, calls, k + 1);
    }
  }

  /** Order by the low 42 bits of the milliseconds, then by sequence number. */
  predicate Earlier(a: Generator, b: Generator) {
    a.lastMs % TWO_42 < b.lastMs % TWO_42 || (a.lastMs % TWO_42 == b.lastMs % TWO_42 && a.sequence < b.sequence)
  }

  /** The exact order of one node's ids, for times of any size. */
  lemma IdOrder(a: Generator, b: Generator)
    requires a.Valid() && b.Valid() && a.node == b.node
    ensures IdOf(a) < IdOf(b) <==> Earlier(a, b)
    ensures IdOf(a) == 0 <==> a.lastMs % TWO_42 == 0 && a.node == 0 && a.sequence == 0
  {
    ShiftLeavesRoom(a.lastMs);
    ShiftLeavesRoom(b.lastMs);
  }

  /** One of two calls in a run returned the smaller id if and only if its time and sequence
      number came first in the order that forgets the time's bits from the 42nd on; and both
      returned the same id if and only if neither came first. */
  lemma IdsOrderedExactlyWhen(g: Generator, calls: seq<Call>, j: nat, k: nat)
    requires IsRun(g, calls) && j < |calls| && k < |calls|
    ensures IsRun(g, calls[..j + 1]) && IsRun(g, calls[..k + 1])
    ensures Issued(g, calls, j) < Issued(g, calls, k) <==> Earlier(After(g, calls[..j + 1]), After(g, calls[..k + 1]))
    ensures Issued(g, calls, j) == Issued(g, calls, k) <==>
              var a, b := After(g, calls[..j + 1]), After(g, calls[..k + 1]);
              a.lastMs % TWO_42 == b.lastMs % TWO_42 && a.sequence == b.sequence
  {
    PrefixOfRun(g, calls, j + 1);
    PrefixOfRun(g, calls, k + 1);
    var a, b := After(g, calls[..j + 1]), After(g, calls[..k + 1]);
    IdOrder(a, b);
    IdOrder(b, a);
  }

  lemma StepGrows(g: Generator, call: Call)
    requires g.Valid() && (MustWait(g, call.reading) ==> g.lastMs < call.waited)
    requires Next(g, call.reading, call.waited).lastMs < TWO_42
    ensures 0 < IdOf(Next(g, call.reading, call.waited))
    ensures IdOf(g) < IdOf(Next(g, call.reading, call.waited))
  {
    IdOrder(g, Next(g, call.reading, call.waited));
  }

  lemma IssuedGrows(g: Generator, calls: seq<Call>, k: nat)
    requires IsRun(g, calls) && k < |calls| && After(g, calls).lastMs < TWO_42
    ensures 0 < Issued(g, calls, k)
    ensures k > 0 ==> Issued(g, calls, k - 1) < Issued(g, calls, k)
    ensures k > 0 ==> IsRun(g, calls[..k])
  {
    PrefixOfRun(g, calls, k + 1);
    PrefixOfRun(g, calls, k);
    assert calls[..k + 1][..k] == calls[..k];
    StepGrows(After(g, calls[..k]), calls[k]);
  }

  /** Ids are nonzero and strictly increasing along any run, whatever the clock does,
      while the milliseconds stay below 2^42.  (The signed time field holds 41 bits, but
      ids are unsigned.)
   */
  lemma {:induction false} IdsStrictlyIncrease(g: Generator, calls: seq<Call>, j: nat, k: nat)
    requires IsRun(g, calls) && j <= k < |calls|
    requires After(g, calls).lastMs < TWO_42
    ensures 0 < Issued(g, calls, j)
    ensures j < k ==> Issued(g, calls, j) < Issued(g, calls, k)
    decreases k
  {
    IssuedGrows(g, calls, k);
    IssuedGrows(g, calls, j);
    if j < k - 1 {
      IdsStrictlyIncrease(g, calls, j, k - 1);
    }
  }

  /** A run whose ids fall: the clock passes 2^42 milliseconds between two calls, and the
      second id is zero. */
  lemma IdsStartOver() returns (g: Generator, calls: seq<Call>)
    ensures g == Generator(0, 0, 0) && calls == [Call(TWO_42 - 1, 0), Call(TWO_42, 0)] && IsRun(g, calls)
    ensures Issued(g, calls, 1) == 0 < Issued(g, calls, 0)
  {
    g, calls := Generator(0, 0, 0), [Call(TWO_42 - 1, 0), Call(TWO_42, 0)];
    assert calls[..1] == [calls[0]] && calls[..1][..0] == [] && calls[..2] == calls;
    assert After(g, calls[..1]) == Generator(0, TWO_42 - 1, 0);
    assert After(g, calls[..2]) == Generator(0, TWO_42, 0);
    IdOrder(After(g, calls[..1]), g);
    IdOrder(After(g, calls[..2]), g);
  }

  lemma Quotient(q: int, r: int, d: int)
    requires 0 <= r < d
    ensures (q * d + r) / d == q && (q * d + r) % d == r
  {
    ModAddMultiple(r, q, d);
    assert r % d == r;
    assert (q * d + r) / d * d == q * d;
  }

  /** The three fields of a packed word, whatever its sign. */
  lemma Fields(m: int, node: nat, sequence: nat)
    requires node <= MAX_NODE && sequence < SEQUENCES
    ensures var w := m * TIME_UNIT + node * SEQUENCES + sequence;
            w / TIME_UNIT == m && w / SEQUENCES % (MAX_NODE + 1) == node && w % SEQUENCES == sequence
  {
    Quotient(m, node * SEQUENCES + sequence, TIME_UNIT);
    Quotient(m * (MAX_NODE + 1) + node, sequence, SEQUENCES);
    Quotient(m, node, MAX_NODE + 1);
    assert m * TIME_UNIT + node * SEQUENCES + sequence == (m * (MAX_NODE + 1) + node) * SEQUENCES + sequence;
  }

  /** Generators with different nodes never issue the same id. */
  lemma NodesNeverCollide(a: Generator, b: Generator)
    requires a.Valid() && b.Valid() && IdOf(a) == IdOf(b)
    ensures a.node == b.node && a.sequence == b.sequence
  {
    ShiftLeavesRoom(a.lastMs);
    ShiftLeavesRoom(b.lastMs);
    Fields(a.lastMs % TWO_42, a.node, a.sequence);
    Fields(b.lastMs % TWO_42, b.node, b.sequence);
  }

  /** Parsing recovers node and sequence always, and the time exactly while it fits 41 bits. */
  lemma ParseRecovers(g: Generator)
    requires g.Valid()
    ensures Parse(IdOf(g)).node == g.node && Parse(IdOf(g)).sequence == g.sequence
    ensures Parse(IdOf(g)).timestamp == EPOCH_UNIX + g.lastMs <==> g.lastMs < 0x200_0000_0000
  {
    ShiftLeavesRoom(g.lastMs);
    var m := g.lastMs % TWO_42;
    var m' := if m < 0x200_0000_0000 then m else m - TWO_42;
    assert ToInt64(IdOf(g)) == m' * TIME_UNIT + g.node * SEQUENCES + g.sequence;
    Fields(m', g.node, g.sequence);
  }

  /** A call at 2^41 milliseconds, whose id is parsed as if issued as long before the epoch. */
  lemma ParseGoesBack() returns (g: Generator, calls: seq<Call>)
    ensures g == Generator(0, 0, 0) && calls == [Call(TWO_42 / 2, 0)] && IsRun(g, calls)
    ensures After(g, calls).lastMs == TWO_42 / 2
    ensures Parse(Issued(g, calls, 0)).timestamp == EPOCH_UNIX - TWO_42 / 2
  {
    g, calls := Generator(0, 0, 0), [Call(TWO_42 / 2, 0)];
    assert calls[..0] == [] && calls[..1] == calls && IsRun(g, []) && After(g, []) == g;
    assert IsRun(g, calls) && After(g, calls) == Generator(0, TWO_42 / 2, 0);
    ShiftLeavesRoom(TWO_42 / 2);
    var m: int := TWO_42 / 2;
    assert ToInt64(Issued(g, calls, 0)) == -m * TIME_UNIT;
    Fields(-m, 0, 0);
  }

  // ------------------------------------------------- when a call has to wait

  /** How many calls of the run issued their id in millisecond `ms`. */
  ghost function IssuedIn(g: Generator, calls: seq<Call>, ms: nat): nat
    requires IsRun(g, calls)
  {
    if calls == [] then 0
    else IssuedIn(g, calls[..|calls| - 1], ms) + if After(g, calls).lastMs == ms then 1 else 0
  }

  lemma {:induction false} NoneIssuedAhead(g: Generator, calls: seq<Call>, ms: nat)
    requires IsRun(g, calls) && After(g, calls).lastMs < ms
    ensures IssuedIn(g, calls, ms) == 0
  {
    if calls != [] {
      NoneIssuedAhead(g, calls[..|calls| - 1], ms);
    }
  }

  /** The sequence number counts the ids of the current millisecond, from zero; in the
      millisecond the generator starts in, its first number stays unused. */
  lemma {:induction false} SequenceCounts(node: nat, calls: seq<Call>)
    requires node <= MAX_NODE && IsRun(Generator(node, 0, 0), calls)
    ensures var g := Generator(node, 0, 0);
            var end := After(g, calls);
            IssuedIn(g, calls, end.lastMs) == end.sequence + if end.lastMs == 0 then 0 else 1
  {
    var g := Generator(node, 0, 0);
    if calls != [] {
      var before := calls[..|calls| - 1];
      SequenceCounts(node, before);
      if After(g, calls).lastMs > After(g, before).lastMs {
        NoneIssuedAhead(g, before, After(g, calls).lastMs);
      }
    }
  }

  /** What a further call does, by the ids the run has issued: a reading past the last
      millisecond is taken over; any other, backward ones included, yields the previous id plus
      one at once, until all 4096 sequence numbers of the millisecond are used (4095 of the
      first), and only then waits. */
  lemma WaitsExactlyWhenUsedUp(node: nat, calls: seq<Call>, call: Call)
    requires node <= MAX_NODE && IsRun(Generator(node, 0, 0), calls)
    requires IsRun(Generator(node, 0, 0), calls + [call])
    ensures var g := Generator(node, 0, 0);
            var last := After(g, calls);
            var used := IssuedIn(g, calls, last.lastMs) + if last.lastMs == 0 then 1 else 0;
            var now := After(g, calls + [call]);
            && 0 <= used <= 4096
            && (call.reading > last.lastMs ==> now.lastMs == call.reading && now.sequence == 0)
            && (call.reading <= last.lastMs && used < 4096 ==> now.lastMs == last.lastMs && IdOf(now) == IdOf(last) + 1)
            && (call.reading <= last.lastMs && used == 4096 ==> now.lastMs == call.waited > last.lastMs && now.sequence == 0)
            && (MustWait(last, call.reading) <==> call.reading <= last.lastMs && used == 4096)
  {
    var g := Generator(node, 0, 0);
    assert (calls + [call])[..|calls|] == calls;
    SequenceCounts(node, calls);
  }

  /** The embedded time never runs ahead of every reading seen so far. */
  lemma {:induction false} TimeWasRead(g: Generator, calls: seq<Call>, bound: int)
    requires IsRun(g, calls) && g.lastMs <= bound
    requires forall i :: 0 <= i < |calls| ==> calls[i].reading <= bound && calls[i].waited <= bound
    ensures After(g, calls).lastMs <= bound
  {
    if calls != [] {
      TimeWasRead(g, calls[..|calls| - 1], bound);
    }
  }

  // ------------------------------------------- spreading over the shard tables

  /** How many ids of millisecond `ms` the run routed to `shard`. */
  ghost function Routed(g: Generator, calls: seq<Call>, ms: nat, shard: nat): nat
    requires IsRun(g, calls)
  {
    if calls == [] then 0
    else Routed(g, calls[..|calls| - 1], ms, shard)
         + if After(g, calls).lastMs == ms && ShardIndexFromID(IdOf(After(g, calls))) == shard then 1 else 0
  }

  /** How many numbers below n leave remainder `shard` by sixteen. */
  function Below(n: nat, shard: nat): nat
    requires shard < SHARD_COUNT
  {
    (n + 15 - shard) / 16
  }

  lemma ShardIsSequenceMod16(g: Generator)
    requires g.Valid()
    ensures ShardIndexFromID(IdOf(g)) == g.sequence % 16
  {
    ShiftLeavesRoom(g.lastMs);
    ModAddMultiple(g.sequence, g.lastMs % TWO_42 * (TIME_UNIT / 16) + g.node * (SEQUENCES / 16), 16);
  }

  lemma BelowCounts(n: nat, shard: nat)
    requires shard < SHARD_COUNT
    ensures Below(n + 1, shard) == Below(n, shard) + if n % 16 == shard then 1 else 0
  {
  }

  /** The ids of the current millisecond have the sequence numbers counted from zero (from
      one in millisecond zero, in which the generator starts out) up to the latest. */
  ghost function Current(end: Generator, ms: nat, shard: nat): int
    requires shard < SHARD_COUNT
  {
    if ms > end.lastMs then 0
    else Below(end.sequence + 1, shard) - if ms == 0 then Below(1, shard) else 0
  }

  lemma {:induction false} RoutedCurrent(node: nat, calls: seq<Call>, ms: nat, shard: nat)
    requires node <= MAX_NODE && shard < SHARD_COUNT
    requires IsRun(Generator(node, 0, 0), calls)
    ensures var g := Generator(node, 0, 0);
            ms >= After(g, calls).lastMs ==>
              Routed(g, calls, ms, shard) == Current(After(g, calls), ms, shard)
  {
    var g := Generator(node, 0, 0);
    if calls != [] {
      var before := calls[..|calls| - 1];
      RoutedCurrent(node, before, ms, shard);
      ShardIsSequenceMod16(After(g, calls));
      BelowCounts(After(g, calls).sequence, shard);
    }
  }

  lemma CurrentIsBalanced(end: Generator, ms: nat, a: nat, b: nat)
    requires a < SHARD_COUNT && b < SHARD_COUNT
    ensures Current(end, ms, a) <= Current(end, ms, b) + 1
  {
    if ms == 0 {
      BelowCounts(0, a);
      BelowCounts(0, b);
      assert Below(end.sequence + 1, 0) >= 1;
      assert Below(end.sequence + 1, a) <= Below(end.sequence + 1, 0) <= Below(end.sequence + 1, a) + 1;
      assert Below(end.sequence + 1, b) <= Below(end.sequence + 1, 0) <= Below(end.sequence + 1, b) + 1;
    }
  }

  /** The ids one generator issues in one millisecond load any two shards equally, up to one. */
  lemma {:induction false} MillisecondSpreadsEvenly(node: nat, calls: seq<Call>, ms: nat, a: nat, b: nat)
    requires node <= MAX_NODE && a < SHARD_COUNT && b < SHARD_COUNT
    requires IsRun(Generator(node, 0, 0), calls)
    ensures var g := Generator(node, 0, 0);
            Routed(g, calls, ms, a) <= Routed(g, calls, ms, b) + 1
  {
    var g := Generator(node, 0, 0);
    if ms >= After(g, calls).lastMs {
      RoutedCurrent(node, calls, ms, a);
      RoutedCurrent(node, calls, ms, b);
      CurrentIsBalanced(After(g, calls), ms, a, b);
    } else {
      MillisecondSpreadsEvenly(node, calls[..|calls| - 1], ms, a, b);
    }
  }
}
