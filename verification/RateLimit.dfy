// The rate limiter: Engine/RateLimit.cpp. Times are unsigned 32-bit milliseconds, which wrap around.

module RateLimit {
  import opened Arithmetic

  const MODULUS := 0x1_0000_0000
  const MAX_BUCKETS := 65536
  const GC_INTERVAL := 1000

  type Time = t: int | 0 <= t < MODULUS

  /** The four bytes of an IPv4 address. */
  newtype Key = k: int | 0 <= k < MODULUS

  /** The unsigned difference of two times. */
  function Since(now: int, before: int): Time { (now - before) % MODULUS }

  // ---------- One bucket ----------

  datatype Bucket = Bucket(lastTime: Time, burst: nat)

  /** One request leaks each period, since the last time one did. */
  function Leaked(b: Bucket, period: nat, now: Time): Bucket
    requires 0 < period
  {
    var interval := Since(now, b.lastTime);
    var expired := interval / period;
    if expired > b.burst then Bucket(now, 0) else Bucket(Since(now, interval % period), b.burst - expired)
  }

  /** The bucket after a request, and whether the request is dropped. */
  function Limited(b: Bucket, burst: nat, period: nat, now: Time): (Bucket, bool)
    requires 0 < period
  {
    var leaked := Leaked(b, period, now);
    if leaked.burst < burst then (leaked.(burst := leaked.burst + 1), false) else (leaked, true)
  }

  class LeakyBucket {
    var lastTime: Time
    var burst: nat

    constructor (lastTime: Time, burst: nat)
      ensures Value() == Bucket(lastTime, burst)
    {
      this.lastTime, this.burst := lastTime, burst;
    }

    ghost function Value(): Bucket
      reads this
    {
      Bucket(lastTime, burst)
    }

    /** In place: leaks what time has passed, then takes one more request if there is room for it. */
    method Limit(maxBurst: nat, period: nat, now: Time) returns (drop: bool)
      requires 0 < period
      modifies this
      ensures (Value(), drop) == Limited(old(Value()), maxBurst, period, now)
    {
      var interval := Since(now, lastTime);
      var expired := interval / period;
      if expired > burst {
        burst := 0;
        lastTime := now;
      } else {
        burst := burst - expired;
        lastTime := Since(now, interval % period);
      }
      if burst < maxBurst {
        burst := burst + 1;
        return false;
      }
      return true;
    }
  }

  /**
   * The bucket as one number: what it still holds at (unbounded) time t, in ms. It goes down by one each ms; a
   * request may go down to one period below empty before the bucket starts again from empty.
   */
  function Debt(b: Bucket, period: nat, t: nat): int {
    b.burst * period - Since(t, b.lastTime)
  }

  /** What Limit computes, in terms of that number: it is lifted to 0 when it is a whole period below empty, the
      request is admitted if and only if it fits under `burst` periods, and then costs one period. */
  lemma LimitIsLeakyBucket(b: Bucket, burst: nat, period: nat, t: nat)
    requires 0 < period < MODULUS
    ensures var (b', drop) := Limited(b, burst, period, t % MODULUS);
            var debt := Debt(b, period, t);
            var leaked := if debt <= 0 - period then 0 else debt;
      && (drop <==> leaked + period > burst * period)
      && Debt(b', period, t) == leaked + (if drop then 0 else period)
      && (b.burst <= burst ==> b'.burst <= burst)
  {
    hide Debt, Since, Leaked;
    var rest := LeakLifts(b, period, t);
    LimitFrom(Leaked(b, period, t % MODULUS), burst, period, t, rest);
    LeakShrinks(b, period, t % MODULUS);
  }

  lemma LeakShrinks(b: Bucket, period: nat, now: Time)
    requires 0 < period
    ensures Leaked(b, period, now).burst <= b.burst
  {
    hide Since;
    DivMod(Since(now, b.lastTime), period);
    MulLess(0, Since(now, b.lastTime) / period, period);
  }

  lemma LeakLifts(b: Bucket, period: nat, t: nat) returns (rest: nat)
    requires 0 < period < MODULUS
    ensures var b', debt := Leaked(b, period, t % MODULUS), Debt(b, period, t);
      && Debt(b', period, t) == (if debt <= 0 - period then 0 else debt)
      && rest < period && b'.lastTime == Since(t % MODULUS, rest)
  {
    var now: Time := t % MODULUS;
    var interval := Since(now, b.lastTime);
    assert interval == Since(t, b.lastTime);
    DivMod(interval, period);
    hide Since;
    LeakLiftsBy(b, period, t, interval);
    rest := if interval / period > b.burst then 0 else interval % period;
    assert Since(now, 0) == now by { SinceZero(now); }
  }

  lemma SinceZero(now: Time)
    ensures Since(now, 0) == now && Since(now, now) == 0
  {
  }

  lemma LeakLiftsBy(b: Bucket, period: nat, t: nat, interval: nat)
    requires 0 < period < MODULUS
    requires interval == Since(t % MODULUS, b.lastTime) == Since(t, b.lastTime)
    ensures var b', debt := Leaked(b, period, t % MODULUS), Debt(b, period, t);
      && Debt(b', period, t) == (if debt <= 0 - period then 0 else debt)
  {
    hide Since;
    var now: Time := t % MODULUS;
    var expired, rest := interval / period, interval % period;
    DivMod(interval, period);
    MulLess(b.burst, expired, period);
    MulLess(expired, b.burst, period);
    if expired > b.burst {
      LeakedDebt(Bucket(now, 0), period, t, 0) by { SinceZero(now); }
    } else {
      LeakedDebt(Bucket(Since(now, rest), b.burst - expired), period, t, rest);
      assert (b.burst - expired) * period == b.burst * period - expired * period;
    }
  }

  lemma LeakedDebt(b: Bucket, period: nat, t: nat, rest: nat)
    requires rest < MODULUS && b.lastTime == Since(t % MODULUS, rest)
    ensures Debt(b, period, t) == b.burst * period - rest
  {
  }

  /** The second half of Limit, on a bucket that has leaked up to `rest` ms ago. */
  lemma LimitFrom(b: Bucket, burst: nat, period: nat, t: nat, rest: nat)
    requires rest < period && rest < MODULUS && b.lastTime == Since(t % MODULUS, rest)
    ensures b.burst >= burst <==> Debt(b, period, t) + period > burst * period
    ensures Debt(b.(burst := b.burst + 1), period, t) == Debt(b, period, t) + period
  {
    LeakedDebt(b, period, t, rest);
    MulLess(b.burst, burst, period);
    assert (b.burst + 1) * period == b.burst * period + period;
  }

  /** To a bucket, a clock that steps back looks like one that has run for weeks: it is emptied, then admits. */
  lemma FutureTimeResets(b: Bucket, burst: nat, period: nat, back: nat)
    requires 0 < period && 0 < burst && 0 < back && back + (b.burst + 1) * period <= MODULUS
    ensures var now := Since(b.lastTime, back); Limited(b, burst, period, now) == (Bucket(now, 1), false)
  {
    var now := Since(b.lastTime, back);
    assert (b.burst + 1) * period >= period;
    var interval := Since(now, b.lastTime);
    assert interval == MODULUS - back;
    DivMod(interval, period);
    MulLess(b.burst, interval / period, period);
    MulLess(interval / period, b.burst + 1, period);
    assert (b.burst + 1) * period == b.burst * period + period;
  }

  // ---------- The table ----------

  datatype Limiter = Limiter(buckets: map<Key, Bucket>, lastGC: Time, outbound: Bucket, badPassword: Bucket)

  /** The garbage collector drops a bucket that has been empty for some time. */
  predicate Drained(b: Bucket, period: nat, now: Time) {
    Since(now, b.lastTime) > b.burst * period
  }

  function Collected(l: Limiter, period: nat, now: Time): Limiter {
    if Since(now, l.lastGC) > GC_INTERVAL then
      l.(lastGC := now, buckets := map k | k in l.buckets && !Drained(l.buckets[k], period, now) :: l.buckets[k])
    else l
  }

  /** The limiter with a bucket for the address, unless the table is full. */
  function WithBucket(l: Limiter, key: Key, period: nat, now: Time): Limiter {
    var c := Collected(l, period, now);
    if key in c.buckets || |c.buckets| >= MAX_BUCKETS then c
    else c.(buckets := c.buckets[key := Bucket(now, 0)])
  }

  datatype Address = Ip(key: Key) | Other

  function AddressOutcome(l: Limiter, from: Address, now: Time): (Limiter, bool) {
    match from
    case Other => (l, true)
    case Ip(key) =>
      var c := WithBucket(l, key, 1000, now);
      if key !in c.buckets then (c, false)
      else
        var (b, drop) := Limited(c.buckets[key], 10, 1000, now);
        (c.(buckets := c.buckets[key := b]), !drop)
  }

  /** getstatus and getinfo; the clock is read again for the second bucket. */
  function StatusOutcome(l: Limiter, from: Address, now: Time, later: Time): (Limiter, bool) {
    var (c, allowed) := AddressOutcome(l, from, now);
    if !allowed then (c, false)
    else
      var (b, drop) := Limited(c.outbound, 10, 100, later);
      (c.(outbound := b), !drop)
  }

  function RconOutcome(l: Limiter, validPassword: bool, now: Time): (Limiter, bool) {
    if validPassword then (l, true)
    else
      var (b, drop) := Limited(l.badPassword, 10, 1000, now);
      (l.(badPassword := b), !drop)
  }

  class RateLimiter {
    var buckets: map<Key, LeakyBucket>
    var lastGC: Time
    const outbound: LeakyBucket
    const badPassword: LeakyBucket

    constructor ()
      ensures Valid() && Value() == Limiter(map[], 0, Bucket(0, 0), Bucket(0, 0))
    {
      buckets, lastGC := map[], 0;
      outbound := new LeakyBucket(0, 0);
      badPassword := new LeakyBucket(0, 0);
    }

    /** No bucket is shared. */
    ghost predicate Valid()
      reads this
    {
      && outbound != badPassword
      && (forall k | k in buckets :: buckets[k] != outbound && buckets[k] != badPassword)
      && (forall k, k' | k in buckets && k' in buckets && k != k' :: buckets[k] != buckets[k'])
    }

    ghost function Value(): Limiter
      reads this, buckets.Values, outbound, badPassword
    {
      Limiter(map k | k in buckets :: buckets[k].Value(), lastGC, outbound.Value(), badPassword.Value())
    }

    /** The loop of the garbage collector over the entries of the map. */
    method CollectDrained(period: nat, now: Time)
      requires Valid()
      modifies `buckets
      ensures Valid()
      ensures forall k :: k in buckets <==> k in old(buckets) && !Drained(old(buckets)[k].Value(), period, now)
      ensures forall k | k in buckets :: buckets[k] == old(buckets)[k]
    {
      var all := buckets;
      var rest := all.Keys;
      while rest != {}
        invariant rest <= all.Keys
        invariant forall k :: k in buckets <==> k in all && (k in rest || !Drained(all[k].Value(), period, now))
        invariant forall k | k in buckets :: buckets[k] == all[k]
        decreases |rest|
      {
        var k :| k in rest;
        if Since(now, all[k].lastTime) > all[k].burst * period {
          buckets := buckets - {k};
        }
        rest := rest - {k};
      }
    }

    /** The bucket of an address, made if need be; null when there are 65536 others. */
    method BucketForAddress(key: Key, period: nat, now: Time) returns (bucket: LeakyBucket?)
      requires Valid()
      modifies this
      ensures Valid() && Value() == WithBucket(old(Value()), key, period, now)
      ensures bucket == if key in buckets then buckets[key] else null
      ensures forall k | k in buckets :: (k in old(buckets) && buckets[k] == old(buckets)[k]) || fresh(buckets[k])
    {
      hide Since, Drained, Collected;
      Collect(period, now);
      ghost var collected := Value();
      SameSize(buckets, collected.buckets);
      if key !in buckets {
        if |buckets| >= MAX_BUCKETS {
          return null;
        }
        Emplace(key, now);
      }
      bucket := buckets[key];
    }

    method Emplace(key: Key, now: Time)
      requires Valid() && key !in buckets
      modifies this`buckets
      ensures Valid() && buckets.Keys == old(buckets.Keys) + {key} && fresh(buckets[key])
      ensures forall k | k in old(buckets) :: buckets[k] == old(buckets)[k]
      ensures Value() == old(Value()).(buckets := old(Value()).buckets[key := Bucket(now, 0)])
    {
      ghost var before := buckets;
      ghost var values := Value().buckets;
      var bucket := new LeakyBucket(now, 0);
      buckets := buckets[key := bucket];
      assert forall k | k in before :: before[k].Value() == values[k];
      assert Value().buckets == values[key := Bucket(now, 0)];
    }

    method Collect(period: nat, now: Time)
      requires Valid()
      modifies this
      ensures Valid() && Value() == Collected(old(Value()), period, now)
      ensures forall k | k in buckets :: k in old(buckets) && buckets[k] == old(buckets)[k]
    {
      if Since(now, lastGC) > GC_INTERVAL {
        lastGC := now;
        CollectDrained(period, now);
        assert forall k | k in buckets :: buckets[k].Value() == old(buckets[k].Value());
        assert Value().buckets == Collected(old(Value()), period, now).buckets;
      }
    }

    lemma SameSize<A, B>(m: map<Key, A>, m': map<Key, B>)
      requires m.Keys == m'.Keys
      ensures |m| == |m'|
    {
      assert |m| == |m.Keys| && |m'| == |m'.Keys|;
    }

    method LimitBucket(key: Key, bucket: LeakyBucket, now: Time) returns (drop: bool)
      requires Valid() && key in buckets && bucket == buckets[key]
      modifies bucket
      ensures Valid()
      ensures var b := old(Value()).buckets[key];
              && Value() == old(Value()).(buckets := old(Value()).buckets[key := Limited(b, 10, 1000, now).0])
              && drop == Limited(b, 10, 1000, now).1
    {
      hide Limited;
      ghost var values := Value().buckets;
      assert values[key] == bucket.Value();
      drop := bucket.Limit(10, 1000, now);
      assert forall k | k in buckets && k != key :: buckets[k].Value() == values[k];
      assert Value().buckets == values[key := bucket.Value()];
    }

    method AddressAllowed(from: Address, now: Time) returns (allowed: bool)
      requires Valid()
      modifies this, buckets.Values
      ensures Valid() && (Value(), allowed) == AddressOutcome(old(Value()), from, now)
      ensures forall k | k in buckets :: (k in old(buckets) && buckets[k] == old(buckets)[k]) || fresh(buckets[k])
    {
      if from.Other? {
        return true;
      }
      var bucket := BucketForAddress(from.key, 1000, now);
      if bucket != null {
        hide WithBucket, Limited;
        var drop := LimitBucket(from.key, bucket, now);
        if !drop {
          return true;
        }
      }
      return false;
    }

    method StatusAllowed(from: Address, now: Time, later: Time) returns (allowed: bool)
      requires Valid()
      modifies this, buckets.Values, outbound
      ensures Valid() && (Value(), allowed) == StatusOutcome(old(Value()), from, now, later)
    {
      allowed := AddressAllowed(from, now);
      if !allowed {
        return false;
      }
      ghost var before := Value();
      var drop := outbound.Limit(10, 100, later);
      assert forall k | k in buckets :: buckets[k].Value() == before.buckets[k];
      assert Value().buckets == before.buckets;
      return !drop;
    }

    method RconAllowed(validPassword: bool, now: Time) returns (allowed: bool)
      requires Valid()
      modifies badPassword
      ensures Valid() && (Value(), allowed) == RconOutcome(old(Value()), validPassword, now)
    {
      if validPassword {
        return true;
      }
      ghost var before := Value();
      var drop := badPassword.Limit(10, 1000, now);
      assert forall k | k in buckets :: buckets[k].Value() == before.buckets[k];
      assert Value().buckets == before.buckets;
      return !drop;
    }
  }

  // ---------- Runs ----------

  /** One call, at an unbounded time; `later` is when the clock is read again for the outbound bucket. */
  datatype Command = AnyCommand(from: Address) | StatusCommand(from: Address) | RconCommand(validPassword: bool)
  datatype Request = Request(command: Command, time: nat, later: nat)

  function Outcome(l: Limiter, r: Request): (Limiter, bool) {
    match r.command
    case AnyCommand(from) => AddressOutcome(l, from, r.time % MODULUS)
    case StatusCommand(from) => StatusOutcome(l, from, r.time % MODULUS, r.later % MODULUS)
    case RconCommand(validPassword) => RconOutcome(l, validPassword, r.time % MODULUS)
  }

  /** The three kinds of buckets, with their period. */
  datatype Which = Of(key: Key) | Outbound | BadPassword

  function Period(which: Which): nat { if which.Outbound? then 100 else 1000 }

  function When(which: Which, r: Request): nat { if which.Outbound? then r.later else r.time }

  /** This request is one that this bucket admitted. */
  predicate Admits(which: Which, l: Limiter, r: Request) {
    match which
    case Of(key) =>
      && !r.command.RconCommand?
      && r.command.from == Ip(key)
      && AddressOutcome(l, r.command.from, r.time % MODULUS).1
    case Outbound => r.command.StatusCommand? && Outcome(l, r).1
    case BadPassword => r.command.RconCommand? && !r.command.validPassword && Outcome(l, r).1
  }

  function Admitted(which: Which, l: Limiter, run: seq<Request>): nat
    decreases |run|
  {
    if run == [] then 0
    else (if Admits(which, l, run[0]) then 1 else 0) + Admitted(which, Outcome(l, run[0]).0, run[1..])
  }

  function AfterRun(l: Limiter, run: seq<Request>): Limiter
    decreases |run|
  {
    if run == [] then l else AfterRun(Outcome(l, run[0]).0, run[1..])
  }

  /** The clock does not go back. */
  ghost predicate Ordered(run: seq<Request>) {
    && (forall i | 0 <= i < |run| :: run[i].time <= run[i].later)
    && (forall i, j | 0 <= i < j < |run| :: run[i].later <= run[j].time)
  }

  predicate Capped(l: Limiter) {
    && (forall k | k in l.buckets :: l.buckets[k].burst <= 10)
    && |l.buckets| <= MAX_BUCKETS
    && l.outbound.burst <= 10
    && l.badPassword.burst <= 10
  }

  const START := Limiter(map[], 0, Bucket(0, 0), Bucket(0, 0))

  /** Every reachable limiter holds at most 10 requests per bucket and 65536 buckets, whoever asks. */
  lemma {:induction false} ReachableIsCapped(l: Limiter, run: seq<Request>)
    requires Capped(l)
    ensures Capped(START) && Capped(AfterRun(l, run))
    decreases |run|
  {
    if run != [] {
      OutcomeIsCapped(l, run[0]);
      ReachableIsCapped(Outcome(l, run[0]).0, run[1..]);
    }
  }

  lemma LimitedIsCapped(b: Bucket, burst: nat, period: nat, now: Time)
    requires 0 < period && b.burst <= burst
    ensures Limited(b, burst, period, now).0.burst <= burst
  {
    LeakShrinks(b, period, now);
  }

  lemma OutcomeIsCapped(l: Limiter, r: Request)
    requires Capped(l)
    ensures Capped(Outcome(l, r).0)
  {
    hide Limited, Since;
    match r.command {
      case RconCommand(_) =>
        LimitedIsCapped(l.badPassword, 10, 1000, r.time % MODULUS);
      case AnyCommand(from) =>
        AddressOutcomeIsCapped(l, from, r.time % MODULUS);
      case StatusCommand(from) =>
        AddressOutcomeIsCapped(l, from, r.time % MODULUS);
        LimitedIsCapped(l.outbound, 10, 100, r.later % MODULUS);
    }
  }

  lemma AddressOutcomeIsCapped(l: Limiter, from: Address, now: Time)
    requires Capped(l)
    ensures var l' := AddressOutcome(l, from, now).0;
      && Capped(l') && l'.outbound == l.outbound && l'.badPassword == l.badPassword
  {
    hide Limited, Since, Drained;
    if from.Ip? {
      var c := Collected(l, 1000, now);
      SubmapIsSmaller(c.buckets, l.buckets);
      var w := WithBucket(l, from.key, 1000, now);
      if from.key in w.buckets {
        LimitedIsCapped(w.buckets[from.key], 10, 1000, now);
        var b := Limited(w.buckets[from.key], 10, 1000, now).0;
        assert w.buckets[from.key := b].Keys == w.buckets.Keys;
        assert |w.buckets[from.key := b]| == |w.buckets[from.key := b].Keys| && |w.buckets| == |w.buckets.Keys|;
      }
    }
  }

  lemma SubmapIsSmaller<A>(m: map<Key, A>, m': map<Key, A>)
    requires m.Keys <= m'.Keys
    ensures |m| <= |m'|
  {
    assert m'.Keys == m.Keys + (m'.Keys - m.Keys);
    assert |m| == |m.Keys| && |m'| == |m'.Keys|;
  }

  // ---------- The bound ----------

  /** What the bucket holds, in ms; a bucket that is not in the table holds nothing. */
  function Potential(which: Which, l: Limiter, t: nat): int {
    match which
    case Of(key) => if key in l.buckets then Debt(l.buckets[key], 1000, t) else 0
    case Outbound => Debt(l.outbound, 100, t)
    case BadPassword => Debt(l.badPassword, 1000, t)
  }

  /** It goes down by at most one each ms, whatever the wraps of the clock in between. */
  lemma TimePasses(which: Which, l: Limiter, t: nat, t': nat)
    requires t <= t'
    ensures Potential(which, l, t') >= Potential(which, l, t) - (t' - t)
  {
  }

  /** A request that this bucket admits adds a period, from at most one period below empty; no request, of any kind
      and with any garbage collection, takes anything out. */
  lemma PotentialRises(which: Which, l: Limiter, r: Request)
    requires Capped(l)
    ensures var l', t := Outcome(l, r).0, When(which, r);
      && Potential(which, l', t) >= Potential(which, l, t) + (if Admits(which, l, r) then Period(which) else 0)
      && (Admits(which, l, r) ==> Potential(which, l', t) > 0)
  {
    hide Limited, Since, Debt, Drained;
    match r.command {
      case RconCommand(valid) =>
        if which.BadPassword? && !valid {
          LimitIsLeakyBucket(l.badPassword, 10, 1000, r.time);
        }
      case AnyCommand(from) =>
        AddressPotential(which, l, from, r.time);
      case StatusCommand(from) =>
        AddressPotential(which, l, from, r.time);
        if which.Outbound? && AddressOutcome(l, from, r.time % MODULUS).1 {
          LimitIsLeakyBucket(l.outbound, 10, 100, r.later);
        }
    }
  }

  lemma AddressPotential(which: Which, l: Limiter, from: Address, t: nat)
    ensures var (l', allowed) := AddressOutcome(l, from, t % MODULUS);
      && l'.outbound == l.outbound && l'.badPassword == l.badPassword
      && (which.Of? ==>
            var admitted := allowed && from == Ip(which.key);
            && Potential(which, l', t) >= Potential(which, l, t) + (if admitted then 1000 else 0)
            && (admitted ==> Potential(which, l', t) > 0))
  {
    hide Limited, Since, Debt, Drained;
    if from.Ip? && which.Of? {
      var now := t % MODULUS;
      if which.key in l.buckets && Drained(l.buckets[which.key], 1000, now) {
        DrainedIsBelowEmpty(l.buckets[which.key], 1000, t);
      }
      NewIsEmpty(1000, t);
      var w := WithBucket(l, from.key, 1000, now);
      assert Potential(which, w, t) >= Potential(which, l, t);
      if from.key == which.key && from.key in w.buckets {
        LimitIsLeakyBucket(w.buckets[from.key], 10, 1000, t);
      }
    }
  }

  // ---------- Who is admitted ----------

  /** A bucket that is a whole period below empty starts again from empty. */
  function Lifted(debt: int, period: nat): int { if debt <= 0 - period then 0 else debt }

  /** There is room for one more request under ten. */
  predicate HasRoom(debt: int, period: nat) { Lifted(debt, period) + period <= 10 * period }

  /** The addresses that keep their bucket: a collection, at most once a second, takes those that are below empty. */
  ghost function Kept(l: Limiter, t: nat): set<Key> {
    set key | key in l.buckets && (Since(t, l.lastGC) > 1000 ==> Debt(l.buckets[key], 1000, t) >= 0)
  }

  /** What a collection leaves, and that it changes nothing else. */
  lemma CollectionKeeps(l: Limiter, t: nat)
    ensures var c := Collected(l, 1000, t % MODULUS);
      && c.buckets.Keys == Kept(l, t) <= l.buckets.Keys
      && (forall k | k in c.buckets :: c.buckets[k] == l.buckets[k])
      && c.outbound == l.outbound && c.badPassword == l.badPassword
      && c.lastGC == if Since(t, l.lastGC) > 1000 then t % MODULUS else l.lastGC
  {
    SinceOfTime(t, l.lastGC);
    hide Since;
    forall k | k in l.buckets
      ensures Drained(l.buckets[k], 1000, t % MODULUS) <==> Debt(l.buckets[k], 1000, t) < 0
    {
      SinceOfTime(t, l.buckets[k].lastTime);
    }
  }

  lemma SinceOfTime(t: nat, before: Time)
    ensures Since(t % MODULUS, before) == Since(t, before)
  {
  }

  /**
   * A request is admitted if and only if its address has a bucket after the collection, or there is room for one, and
   * ten requests are not reached; it then costs a second. A request that is not from an IPv4 address is admitted, and
   * nothing changes. The buckets of the other addresses that keep theirs, and the two global ones, stay.
   */
  lemma AddressAdmission(l: Limiter, from: Address, t: nat)
    ensures var kept := Kept(l, t);
            var (l', admitted) := AddressOutcome(l, from, t % MODULUS);
      match from
      case Other => admitted && l' == l
      case Ip(key) =>
        var held := if key in kept then Potential(Of(key), l, t) else 0;
        var has := key in kept || |kept| < 65536;
        && (admitted <==> has && HasRoom(held, 1000))
        && l'.buckets.Keys == (if has then kept + {key} else kept)
        && (has ==> Potential(Of(key), l', t) == Lifted(held, 1000) + if admitted then 1000 else 0)
        && (forall k | k in kept && k != key :: l'.buckets[k] == l.buckets[k])
        && l'.outbound == l.outbound && l'.badPassword == l.badPassword
  {
    hide Limited, Since, Debt, Kept, Collected;
    if from.Ip? {
      var key, now, kept := from.key, t % MODULUS, Kept(l, t);
      var c := Collected(l, 1000, now);
      CollectionKeeps(l, t);
      assert |c.buckets| == |c.buckets.Keys|;
      NewIsEmpty(1000, t);
      var w := WithBucket(l, key, 1000, now);
      if key in w.buckets {
        var b := w.buckets[key];
        assert b == if key in c.buckets then l.buckets[key] else Bucket(now, 0);
        assert Debt(b, 1000, t) == if key in kept then Potential(Of(key), l, t) else 0;
        LimitIsLeakyBucket(b, 10, 1000, t);
        var (b', drop) := Limited(b, 10, 1000, now);
        assert AddressOutcome(l, from, now) == (w.(buckets := w.buckets[key := b']), !drop);
      }
    }
  }

  /** getstatus and getinfo: admitted when the address is, and then the outbound bucket, which is else left alone. */
  lemma StatusAdmission(l: Limiter, from: Address, t: nat, later: nat)
    ensures var (a, allowed) := AddressOutcome(l, from, t % MODULUS);
            var (l', admitted) := StatusOutcome(l, from, t % MODULUS, later % MODULUS);
      && (admitted <==> allowed && HasRoom(Potential(Outbound, l, later), 100))
      && (allowed ==> Potential(Outbound, l', later)
                      == Lifted(Potential(Outbound, l, later), 100) + if admitted then 100 else 0)
      && (!allowed ==> l' == a)
      && l'.buckets == a.buckets && l'.lastGC == a.lastGC && l'.badPassword == l.badPassword
  {
    hide Limited, Since, Debt, Drained;
    AddressPotential(Outbound, l, from, t);
    LimitIsLeakyBucket(l.outbound, 10, 100, later);
  }

  /** rcon: a valid password is free; a bad one is admitted when the bucket of all bad passwords has room. */
  lemma RconAdmission(l: Limiter, validPassword: bool, t: nat)
    ensures var (l', admitted) := RconOutcome(l, validPassword, t % MODULUS);
      if validPassword then admitted && l' == l
      else
        && (admitted <==> HasRoom(Potential(BadPassword, l, t), 1000))
        && Potential(BadPassword, l', t)
           == Lifted(Potential(BadPassword, l, t), 1000) + (if admitted then 1000 else 0)
        && l'.buckets == l.buckets && l'.lastGC == l.lastGC && l'.outbound == l.outbound
  {
    hide Limited, Since, Debt;
    LimitIsLeakyBucket(l.badPassword, 10, 1000, t);
  }

  /** Who has asked nothing yet is admitted by a limiter with room. */
  lemma FirstIsAdmitted(key: Key, t: nat)
    ensures AddressOutcome(START, Ip(key), t % MODULUS).1
    ensures StatusOutcome(START, Ip(key), t % MODULUS, t % MODULUS).1
  {
    hide Limited, Since;
    assert Kept(START, t) == {};
    AddressAdmission(START, Ip(key), t);
    StatusAdmission(START, Ip(key), t, t);
  }

  lemma DrainedIsBelowEmpty(b: Bucket, period: nat, t: nat)
    requires Drained(b, period, t % MODULUS)
    ensures Debt(b, period, t) < 0
  {
  }

  lemma NewIsEmpty(period: nat, t: nat)
    ensures Debt(Bucket(t % MODULUS, 0), period, t) == 0
  {
  }

  lemma CappedPotential(which: Which, l: Limiter, t: nat)
    requires Capped(l)
    ensures Potential(which, l, t) <= 10 * Period(which)
  {
  }

  /** From a bucket that held at least `held` at time t, until the last request. */
  lemma {:induction false} AdmittedFrom(which: Which, l: Limiter, run: seq<Request>, t: nat, held: int)
    requires Capped(l) && Ordered(run) && run != []
    requires t <= When(which, run[0]) && Potential(which, l, t) >= held
    ensures held + Admitted(which, l, run) * Period(which) - (When(which, run[|run| - 1]) - t) <= 10 * Period(which)
    decreases |run|
  {
    hide Potential, Admits, Outcome, Capped;
    var r, l' := run[0], Outcome(l, run[0]).0;
    var t' := When(which, r);
    TimePasses(which, l, t, t');
    PotentialRises(which, l, r);
    OutcomeIsCapped(l, r);
    var held' := held - (t' - t) + if Admits(which, l, r) then Period(which) else 0;
    if |run| == 1 {
      CappedPotential(which, l', t');
      assert Admitted(which, l', run[1..]) == 0;
    } else {
      assert run[1..][0] == run[1] && run[1..][|run[1..]| - 1] == run[|run| - 1];
      AdmittedFrom(which, l', run[1..], t', held');
    }
  }

  function Ceiling(x: nat, period: nat): nat
    requires 0 < period
  {
    (x + period - 1) / period
  }

  /**
   * The rate, over whole runs: from any reachable state, in any run of requests of any kind, under a clock that does
   * not go back but may wrap around any number of times, with any garbage collections, a bucket admits at most
   * 10 requests and one more for each period begun between the first and the last.
   */
  lemma {:induction false} RateIsBounded(which: Which, l: Limiter, run: seq<Request>)
    requires Capped(l) && Ordered(run) && run != []
    ensures When(which, run[0]) <= When(which, run[|run| - 1])
    ensures Admitted(which, l, run)
         <= 10 + Ceiling(When(which, run[|run| - 1]) - When(which, run[0]), Period(which))
    decreases |run|
  {
    hide Potential, Outcome, Capped, Admits;
    var r, l' := run[0], Outcome(l, run[0]).0;
    var last := When(which, run[|run| - 1]);
    OutcomeIsCapped(l, r);
    if |run| == 1 {
      assert Admitted(which, l', run[1..]) == 0;
    } else {
      var rest := run[1..];
      assert rest[0] == run[1] && rest[|rest| - 1] == run[|run| - 1];
      if Admits(which, l, r) {
        PotentialRises(which, l, r);
        AdmittedFrom(which, l', rest, When(which, r), 1);
        var n, period := Admitted(which, l', rest), Period(which);
        CeilingFrom(n, period, last - When(which, r));
      } else {
        RateIsBounded(which, l', rest);
        CeilingGrows(last - When(which, rest[0]), last - When(which, r), Period(which));
      }
    }
  }

  lemma CeilingFrom(n: nat, period: nat, span: nat)
    requires period == 100 || period == 1000
    requires 1 + n * period - span <= 10 * period
    ensures n + 1 <= 10 + Ceiling(span, period)
  {
  }

  lemma CeilingGrows(span: nat, span': nat, period: nat)
    requires (period == 100 || period == 1000) && span <= span'
    ensures Ceiling(span, period) <= Ceiling(span', period)
  {
  }

  // ---------- What the garbage collector loses ----------

  /**
   * Evicting a bucket loses nothing but the phase of its leak: had it stayed, its next request would have found it
   * empty, been admitted, and left one request in it, as in a new bucket; the two differ by less than a period.
   * (The next request comes before the clock comes back to the last time of the bucket.)
   */
  lemma EvictionLosesNothing(b: Bucket, burst: nat, period: nat, evicted: nat, next: nat)
    requires 0 < burst && 0 < period < MODULUS && evicted <= next
    requires Drained(b, period, evicted % MODULUS)
    requires Since(evicted, b.lastTime) + (next - evicted) < MODULUS
    ensures var now := next % MODULUS;
            var (kept, drop), (new', drop') := Limited(b, burst, period, now), Limited(Bucket(now, 0), burst, period, now);
      && !drop && !drop'
      && kept.burst == new'.burst == 1
      && new'.lastTime == now
      && Since(now, kept.lastTime) < period
  {
    var now: Time := next % MODULUS;
    hide Since, Drained;
    Elapsed(b.lastTime, evicted, next);
    DrainedIs(b, period, evicted);
    OldBucketEmpties(b, period, now);
    OldBucketEmpties(Bucket(now, 0), period, now) by {
      SinceZero(now);
    }
    SinceZero(now);
    assert Leaked(Bucket(now, 0), period, now) == Bucket(now, 0) by {
      assert 0 / period == 0 && 0 % period == 0;
    }
  }

  lemma DrainedIs(b: Bucket, period: nat, t: nat)
    requires Drained(b, period, t % MODULUS)
    ensures Since(t, b.lastTime) > b.burst * period
  {
  }

  lemma OldBucketEmpties(b: Bucket, period: nat, now: Time)
    requires 0 < period < MODULUS && Since(now, b.lastTime) >= b.burst * period
    ensures Leaked(b, period, now).burst == 0 && Since(now, Leaked(b, period, now).lastTime) < period
  {
    hide Since;
    var interval := Since(now, b.lastTime);
    DivMod(interval, period);
    MulLess(interval / period, b.burst, period);
    SinceSince(now, interval % period);
    SinceZero(now);
  }

  lemma SinceSince(now: Time, x: Time)
    ensures Since(now, Since(now, x)) == x
  {
  }

  lemma Elapsed(before: Time, t: nat, t': nat)
    requires t <= t' && Since(t, before) + (t' - t) < MODULUS
    ensures Since(t' % MODULUS, before) == Since(t, before) + (t' - t)
  {
  }
}
