/**
 The in-memory rate limiter (internal/adapters/httpapi/ratelimit.go): a lazily refilled token bucket per
 key whose idle buckets are evicted. Instants are seconds and tokens are reals; float rounding and the
 truncation of durations to nanoseconds are not modelled.
 */
module RateLimit {
  import opened Wrappers
  import Sets

  datatype Policy = Policy(burst: int, perMinute: real) {
    predicate Valid() { burst > 0 && perMinute > 0.0 }

    function PerSecond(): real { perMinute / 60.0 }

    function Capacity(): real { burst as real }
  }

  datatype Bucket = Bucket(tokens: real, lastSeen: real)

  datatype Decision = Decision(allowed: bool, limit: int, remaining: int, reset: real, retryAfter: int)

  /** A call with an invalid policy is let through unmetered. */
  const UNMETERED := Decision(true, 0, 0, 0.0, 0)

  const SWEEP_INTERVAL := 60.0
  const IDLE_TTL := 600.0

  /** lastSweep is unset until the first sweep, as Go's zero time is longer ago than any interval. */
  datatype Limiter = Limiter(buckets: map<string, Bucket>, lastSweep: Option<real>)

  const FRESH := Limiter(map[], None)

  function Min(a: real, b: real): real { if a <= b then a else b }

  function Ceil(x: real): int { -((-x).Floor) }

  /** What flows into a bucket in a stretch of time. */
  function Refill(p: Policy, elapsed: real): real { elapsed * p.PerSecond() }

  /** What a bucket holds when it is looked at: refilled for the time that has passed, up to the capacity. */
  function Refilled(b: Bucket, p: Policy, now: real): Bucket {
    Bucket(if now - b.lastSeen > 0.0 then Min(p.Capacity(), b.tokens + Refill(p, now - b.lastSeen)) else b.tokens, now)
  }

  /** One token taken if there is a whole one, and what the caller is told. */
  function Take(b: Bucket, p: Policy, now: real): (Bucket, Decision)
    requires p.Valid()
  {
    var allowed := b.tokens >= 1.0;
    var left := if allowed then b.tokens - 1.0 else b.tokens;
    var wait := Ceil((1.0 - b.tokens) / p.PerSecond());
    (Bucket(left, b.lastSeen),
     Decision(allowed, p.burst, if left < 0.0 then 0 else left.Floor,
       now + (p.Capacity() - left) / p.PerSecond(),
       if allowed then 0 else if wait < 1 then 1 else wait))
  }

  function Visit(buckets: map<string, Bucket>, key: string, p: Policy, now: real): (map<string, Bucket>, Decision)
    requires p.Valid()
  {
    var b := if key in buckets then Refilled(buckets[key], p, now) else Bucket(p.Capacity(), now);
    var (left, d) := Take(b, p, now);
    (buckets[key := left], d)
  }

  predicate Idle(b: Bucket, now: real) { now - b.lastSeen > IDLE_TTL }

  function Evicted(buckets: map<string, Bucket>, now: real): map<string, Bucket> {
    map k | k in buckets && !Idle(buckets[k], now) :: buckets[k]
  }

  predicate SweepIsDue(l: Limiter, maxEntries: nat, now: real) {
    |l.buckets| > maxEntries || l.lastSweep.None? || now - l.lastSweep.value >= SWEEP_INTERVAL
  }

  /** The sweep finds the map still over its ceiling and starts it again. */
  predicate Resets(l: Limiter, maxEntries: nat, now: real) {
    SweepIsDue(l, maxEntries, now) && |Evicted(l.buckets, now)| > maxEntries
  }

  function Swept(l: Limiter, maxEntries: nat, now: real): Limiter {
    if !SweepIsDue(l, maxEntries, now) then l
    else Limiter(if Resets(l, maxEntries, now) then map[] else Evicted(l.buckets, now), Some(now))
  }

  /** allow. */
  function Admit(l: Limiter, maxEntries: nat, key: string, p: Policy, now: real): (Limiter, Decision) {
    if !p.Valid() then (l, UNMETERED)
    else
      var swept := Swept(l, maxEntries, now);
      var (buckets, d) := Visit(swept.buckets, key, p, now);
      (Limiter(buckets, swept.lastSweep), d)
  }

  // ---------------------------------------------------------------------------------------------
  // The limiter itself
  // ---------------------------------------------------------------------------------------------

  /** The refill of allow. */
  method RefillBucket(stored: Bucket, p: Policy, now: real) returns (b: Bucket)
    ensures b == Refilled(stored, p, now)
  {
    b := stored;
    var elapsed := now - b.lastSeen;
    if elapsed > 0.0 { b := b.(tokens := Min(p.Capacity(), b.tokens + Refill(p, elapsed))); }
    b := b.(lastSeen := now);
  }

  /** The rest of allow: take a token or say when to come back, and describe what is left. */
  method TakeToken(full: Bucket, p: Policy, now: real) returns (b: Bucket, d: Decision)
    requires p.Valid()
    ensures (b, d) == Take(full, p, now)
  {
    b := full;
    var allowed, retryAfter := false, 0;
    if b.tokens >= 1.0 {
      b := b.(tokens := b.tokens - 1.0);
      allowed := true;
    } else {
      var need := 1.0 - b.tokens;
      retryAfter := Ceil(need / p.PerSecond());
      if retryAfter < 1 { retryAfter := 1; }
    }
    var remaining := if b.tokens < 0.0 then 0 else b.tokens.Floor;
    var refillSeconds := (p.Capacity() - b.tokens) / p.PerSecond();
    d := Decision(allowed, p.burst, remaining, now + refillSeconds, retryAfter);
  }

  class TokenBucketLimiter {
    var buckets: map<string, Bucket>
    var lastSweep: Option<real>
    const maxEntries: nat

    constructor (maxEntries: nat)
      ensures View() == FRESH && this.maxEntries == (if maxEntries == 0 then 50_000 else maxEntries)
    {
      this.maxEntries := if maxEntries == 0 then 50_000 else maxEntries;
      buckets, lastSweep := map[], None;
    }

    function View(): Limiter
      reads this
    {
      Limiter(buckets, lastSweep)
    }

    method SweepLocked(now: real)
      modifies this
      ensures View() == Swept(old(View()), maxEntries, now)
    {
      var over := |buckets| > maxEntries;
      if !over && lastSweep.Some? && now - lastSweep.value < SWEEP_INTERVAL { return; }
      lastSweep := Some(now);
      ghost var was := buckets;
      var unseen := buckets.Keys;
      while unseen != {}
        invariant unseen <= buckets.Keys <= was.Keys
        invariant forall k | k in buckets :: buckets[k] == was[k]
        invariant forall k | k in was && k !in unseen :: k in buckets <==> !Idle(was[k], now)
        invariant lastSweep == Some(now)
        decreases |unseen|
      {
        var k :| k in unseen;
        unseen := unseen - {k};
        if Idle(buckets[k], now) { buckets := buckets - {k}; }
      }
      assert buckets == Evicted(was, now);
      if |buckets| > maxEntries { buckets := map[]; }
    }

    method Allow(key: string, p: Policy, now: real) returns (d: Decision)
      modifies this
      ensures (View(), d) == Admit(old(View()), maxEntries, key, p, now)
    {
      if !p.Valid() { return UNMETERED; }
      SweepLocked(now);
      hide Take, Refilled, Swept;
      var b := Bucket(p.Capacity(), now);
      if key in buckets { b := RefillBucket(buckets[key], p, now); }
      b, d := TakeToken(b, p, now);
      buckets := buckets[key := b];
    }
  }

  // ---------------------------------------------------------------------------------------------
  // Runs
  // ---------------------------------------------------------------------------------------------

  datatype Call = Call(key: string, policy: Policy, at: real)

  /** The clock never goes back. */
  predicate InOrder(cs: seq<Call>) {
    forall i, j | 0 <= i <= j < |cs| :: cs[i].at <= cs[j].at
  }

  /** Whoever calls with a key calls with the key's own policy. */
  ghost predicate PolicyPerKey(cs: seq<Call>, policyOf: string -> Policy) {
    forall c | c in cs :: c.policy == policyOf(c.key) && c.policy.Valid()
  }

  /** The limiter after a run, and the decisions it made. */
  function Run(cs: seq<Call>, maxEntries: nat): (r: (Limiter, seq<Decision>))
    ensures |r.1| == |cs|
  {
    if |cs| == 0 then (FRESH, [])
    else
      var before := Run(cs[..|cs| - 1], maxEntries);
      var c := cs[|cs| - 1];
      var (l, d) := Admit(before.0, maxEntries, c.key, c.policy, c.at);
      (l, before.1 + [d])
  }

  /** The same run of a limiter that never evicts. */
  function Keep(cs: seq<Call>): (r: (map<string, Bucket>, seq<Decision>))
    requires forall c | c in cs :: c.policy.Valid()
    ensures |r.1| == |cs|
  {
    if |cs| == 0 then (map[], [])
    else
      var before := Keep(cs[..|cs| - 1]);
      var c := cs[|cs| - 1];
      var (buckets, d) := Visit(before.0, c.key, c.policy, c.at);
      (buckets, before.1 + [d])
  }

  /** At no call of the run does the sweep start the map again. */
  ghost predicate NeverResets(cs: seq<Call>, maxEntries: nat) {
    forall i | 0 <= i < |cs| :: !Resets(Run(cs[..i], maxEntries).0, maxEntries, cs[i].at)
  }

  // ---------------------------------------------------------------------------------------------
  // The map stays small
  // ---------------------------------------------------------------------------------------------

  lemma EvictedIsSmaller(buckets: map<string, Bucket>, now: real)
    ensures |Evicted(buckets, now)| <= |buckets|
  {
    var e := Evicted(buckets, now);
    assert e.Keys <= buckets.Keys;
    Sets.SubsetIsSmaller(e.Keys, buckets.Keys);
    assert |e| == |e.Keys| && |buckets| == |buckets.Keys|;
  }

  lemma OneMoreKey(buckets: map<string, Bucket>, key: string, b: Bucket)
    ensures |buckets[key := b]| <= |buckets| + 1
  {
    assert |buckets[key := b]| == |buckets[key := b].Keys| && |buckets| == |buckets.Keys|;
    assert buckets[key := b].Keys == buckets.Keys + {key};
    if key in buckets { assert buckets.Keys + {key} == buckets.Keys; }
  }

  /** Whatever the keys, policies and clock readings, the map never exceeds its ceiling by more than one. */
  lemma {:induction false} MapStaysSmall(cs: seq<Call>, maxEntries: nat)
    ensures |Run(cs, maxEntries).0.buckets| <= maxEntries + 1
  {
    hide Take, Refilled;
    if |cs| > 0 {
      MapStaysSmall(cs[..|cs| - 1], maxEntries);
      var l, c := Run(cs[..|cs| - 1], maxEntries).0, cs[|cs| - 1];
      EvictedIsSmaller(l.buckets, c.at);
      if c.policy.Valid() {
        var swept := Swept(l, maxEntries, c.at).buckets;
        assert |swept| <= maxEntries;
        OneMoreKey(swept, c.key, Visit(swept, c.key, c.policy, c.at).0[c.key]);
      }
    }
  }

  // ---------------------------------------------------------------------------------------------
  // Evicting an idle bucket forgets nothing
  // ---------------------------------------------------------------------------------------------

  /** The refill grows with the time, and adds up. */
  lemma RefillIsMonotone(p: Policy, a: real, b: real)
    requires p.Valid() && a <= b
    ensures Refill(p, a) <= Refill(p, b)
    ensures 0.0 <= a ==> 0.0 <= Refill(p, a)
  {
    var r := p.PerSecond();
    assert r >= 0.0;
    assert (b - a) * r >= 0.0;
    assert 0.0 <= a ==> 0.0 <= a * r;
  }

  lemma RefillAdds(p: Policy, a: real, b: real)
    ensures Refill(p, a + b) == Refill(p, a) + Refill(p, b)
  {
  }

  /** The bucket, whatever it held, has refilled completely. */
  predicate FullBy(b: Bucket, p: Policy, now: real) {
    now - b.lastSeen > 0.0 && b.tokens + Refill(p, now - b.lastSeen) >= p.Capacity()
  }

  lemma IdleRefill(p: Policy)
    ensures Refill(p, IDLE_TTL) == 10.0 * p.perMinute
  {
  }

  /** A bucket idle for longer than the time to live has always refilled, exactly when the burst allows it. */
  lemma IdleMeansFullIff(p: Policy)
    requires p.Valid()
    ensures (forall b: Bucket, now: real :: b.tokens >= 0.0 && Idle(b, now) ==> FullBy(b, p, now))
      <==> p.Capacity() <= 10.0 * p.perMinute
  {
    hide Refill;
    IdleRefill(p);
    if p.Capacity() <= 10.0 * p.perMinute {
      forall b: Bucket, now: real | b.tokens >= 0.0 && Idle(b, now) ensures FullBy(b, p, now) {
        RefillIsMonotone(p, IDLE_TTL, now - b.lastSeen);
      }
    } else {
      var extra := ALittleMore(p, p.Capacity() - 10.0 * p.perMinute);
      RefillAdds(p, IDLE_TTL, extra);
      assert Idle(Bucket(0.0, 0.0), IDLE_TTL + extra) && !FullBy(Bucket(0.0, 0.0), p, IDLE_TTL + extra);
    }
  }

  /** A stretch of time whose refill falls short of a given amount. */
  lemma ALittleMore(p: Policy, amount: real) returns (extra: real)
    requires p.Valid() && amount > 0.0
    ensures extra > 0.0 && Refill(p, extra) < amount
  {
    var r := p.PerSecond();
    extra := amount / (2.0 * r);
    assert extra * r == amount / 2.0;
  }

  /** Being full lasts until the bucket is next visited. */
  lemma FullStaysFull(b: Bucket, p: Policy, now: real, later: real)
    requires p.Valid() && FullBy(b, p, now) && now <= later
    ensures FullBy(b, p, later)
  {
    hide Refill;
    RefillIsMonotone(p, now - b.lastSeen, later - b.lastSeen);
  }

  ghost predicate BurstsBounded(policyOf: string -> Policy) {
    forall k :: policyOf(k).Valid() ==> policyOf(k).Capacity() <= 10.0 * policyOf(k).perMinute
  }

  /** Both limiters hold the same buckets, but for some that have refilled and only one still holds. */
  ghost predicate Agree(evicting: map<string, Bucket>, keeping: map<string, Bucket>, policyOf: string -> Policy, now: real) {
    && (forall k | k in evicting :: k in keeping && evicting[k] == keeping[k])
    && (forall k | k in keeping && k !in evicting :: FullBy(keeping[k], policyOf(k), now))
  }

  /** Every bucket belongs to a valid policy, holds between nothing and its burst, and was seen by now. */
  ghost predicate WithinBounds(buckets: map<string, Bucket>, policyOf: string -> Policy, now: real) {
    forall k | k in buckets ::
      policyOf(k).Valid() && 0.0 <= buckets[k].tokens <= policyOf(k).Capacity() && buckets[k].lastSeen <= now
  }

  lemma RefillingStaysWithin(b: Bucket, p: Policy, now: real)
    requires p.Valid() && 0.0 <= b.tokens <= p.Capacity()
    ensures 0.0 <= Refilled(b, p, now).tokens <= p.Capacity()
  {
    hide Refill;
    if now - b.lastSeen > 0.0 { RefillIsMonotone(p, now - b.lastSeen, now - b.lastSeen); }
  }

  lemma VisitStaysWithin(buckets: map<string, Bucket>, policyOf: string -> Policy, c: Call)
    requires WithinBounds(buckets, policyOf, c.at) && c.policy == policyOf(c.key) && c.policy.Valid()
    ensures WithinBounds(Visit(buckets, c.key, c.policy, c.at).0, policyOf, c.at)
  {
    hide Refilled;
    if c.key in buckets {
      RefillingStaysWithin(buckets[c.key], c.policy, c.at);
      SeenNow(buckets[c.key], c.policy, c.at);
    }
  }

  lemma SeenNow(b: Bucket, p: Policy, now: real)
    ensures Refilled(b, p, now).lastSeen == now
  {
  }

  /** Sweeping keeps the two limiters in agreement: what it drops has refilled. */
  lemma SweepingAgrees(l: Limiter, keeping: map<string, Bucket>, policyOf: string -> Policy, maxEntries: nat, now: real)
    requires Agree(l.buckets, keeping, policyOf, now) && WithinBounds(keeping, policyOf, now) && BurstsBounded(policyOf)
    requires !Resets(l, maxEntries, now)
    ensures Agree(Swept(l, maxEntries, now).buckets, keeping, policyOf, now)
  {
    forall k | k in keeping && k in l.buckets && Idle(l.buckets[k], now) ensures FullBy(keeping[k], policyOf(k), now) {
      IdleMeansFullIff(policyOf(k));
    }
  }

  /** A visit treats a fresh bucket and a refilled one alike. */
  lemma VisitingAgrees(evicting: map<string, Bucket>, keeping: map<string, Bucket>, policyOf: string -> Policy, c: Call)
    requires Agree(evicting, keeping, policyOf, c.at) && c.policy == policyOf(c.key) && c.policy.Valid()
    ensures var (e, d) := Visit(evicting, c.key, c.policy, c.at);
      var (k, d') := Visit(keeping, c.key, c.policy, c.at);
      d == d' && Agree(e, k, policyOf, c.at)
  {
    hide Take;
    if c.key in keeping && c.key !in evicting {
      assert Refilled(keeping[c.key], c.policy, c.at) == Bucket(c.policy.Capacity(), c.at);
    }
  }

  lemma AgreeLater(evicting: map<string, Bucket>, keeping: map<string, Bucket>, policyOf: string -> Policy, now: real, later: real)
    requires Agree(evicting, keeping, policyOf, now) && WithinBounds(keeping, policyOf, now) && now <= later
    ensures Agree(evicting, keeping, policyOf, later) && WithinBounds(keeping, policyOf, later)
  {
    forall k | k in keeping && k !in evicting ensures FullBy(keeping[k], policyOf(k), later) {
      FullStaysFull(keeping[k], policyOf(k), now, later);
    }
  }

  lemma PrefixOfRun(cs: seq<Call>, policyOf: string -> Policy, maxEntries: nat)
    requires |cs| > 0 && InOrder(cs) && PolicyPerKey(cs, policyOf) && NeverResets(cs, maxEntries)
    ensures var init := cs[..|cs| - 1];
      InOrder(init) && PolicyPerKey(init, policyOf) && NeverResets(init, maxEntries)
  {
    hide Run, Resets;
    var init := cs[..|cs| - 1];
    assert forall c | c in init :: c in cs;
    forall i | 0 <= i < |init| ensures !Resets(Run(init[..i], maxEntries).0, maxEntries, init[i].at) {
      assert init[..i] == cs[..i];
    }
  }

  /**
   The limiter that evicts idle buckets makes the same decisions as one that never does, over every run
   with a clock that does not go back, one policy a key, bursts of at most ten minutes' refill and no
   reset; and the buckets either holds stay between empty and full.
   */
  lemma {:induction false} EvictionIsInvisible(cs: seq<Call>, policyOf: string -> Policy, maxEntries: nat)
    requires InOrder(cs) && PolicyPerKey(cs, policyOf) && BurstsBounded(policyOf) && NeverResets(cs, maxEntries)
    ensures Run(cs, maxEntries).1 == Keep(cs).1
    ensures |cs| > 0 ==>
      var now := cs[|cs| - 1].at;
      Agree(Run(cs, maxEntries).0.buckets, Keep(cs).0, policyOf, now) && WithinBounds(Keep(cs).0, policyOf, now)
  {
    hide Visit, Swept, Resets, Agree, WithinBounds, BurstsBounded;
    if |cs| > 0 {
      var init, c := cs[..|cs| - 1], cs[|cs| - 1];
      PrefixOfRun(cs, policyOf, maxEntries);
      EvictionIsInvisible(init, policyOf, maxEntries);
      var l, keeping := Run(init, maxEntries).0, Keep(init).0;
      if |init| > 0 {
        assert cs[|init| - 1].at <= c.at;
        AgreeLater(l.buckets, keeping, policyOf, init[|init| - 1].at, c.at);
      } else {
        NothingAgrees(policyOf, c.at);
      }
      assert c in cs;
      SweepingAgrees(l, keeping, policyOf, maxEntries, c.at);
      VisitingAgrees(Swept(l, maxEntries, c.at).buckets, keeping, policyOf, c);
      VisitStaysWithin(keeping, policyOf, c);
    }
  }

  lemma NothingAgrees(policyOf: string -> Policy, now: real)
    ensures Agree(map[], map[], policyOf, now) && WithinBounds(map[], policyOf, now)
  {
  }

  // ---------------------------------------------------------------------------------------------
  // Beyond the bound eviction shows
  // ---------------------------------------------------------------------------------------------

  /** n calls at the same instant. */
  function Burst(key: string, p: Policy, n: nat): (cs: seq<Call>)
    ensures |cs| == n && forall c | c in cs :: c == Call(key, p, 0.0)
  {
    seq(n, i => Call(key, p, 0.0))
  }

  lemma BurstExtended(key: string, p: Policy, n: nat)
    requires n > 0
    ensures Burst(key, p, n)[..n - 1] == Burst(key, p, n - 1) && Burst(key, p, n)[n - 1] == Call(key, p, 0.0)
  {
  }

  /** Both limiters after n calls at once, no more than the burst: one bucket, n tokens short. */
  lemma {:induction false} Drained(key: string, p: Policy, maxEntries: nat, n: nat)
    requires p.Valid() && 0 < n <= p.burst && maxEntries > 0
    ensures var drained := map[key := Bucket(p.Capacity() - n as real, 0.0)];
      && Run(Burst(key, p, n), maxEntries).0 == Limiter(drained, Some(0.0))
      && Keep(Burst(key, p, n)).0 == drained
    ensures NeverResets(Burst(key, p, n), maxEntries)
  {
    hide Admit, Visit, Resets, NeverResets;
    var cs := Burst(key, p, n);
    BurstExtended(key, p, n);
    if n > 1 {
      Drained(key, p, maxEntries, n - 1);
    } else {
      assert cs[..0] == [];
      NothingResets(maxEntries);
    }
    BurstTakesOne(key, p, maxEntries, n);
    OneMoreNeverResets(cs, maxEntries);
  }

  lemma NothingResets(maxEntries: nat)
    ensures NeverResets([], maxEntries)
  {
  }

  lemma OneMoreNeverResets(cs: seq<Call>, maxEntries: nat)
    requires |cs| > 0 && NeverResets(cs[..|cs| - 1], maxEntries)
    requires !Resets(Run(cs[..|cs| - 1], maxEntries).0, maxEntries, cs[|cs| - 1].at)
    ensures NeverResets(cs, maxEntries)
  {
    hide Run, Resets;
    var n := |cs| - 1;
    forall i | 0 <= i < |cs| ensures !Resets(Run(cs[..i], maxEntries).0, maxEntries, cs[i].at) {
      if i < n { assert cs[..i] == cs[..n][..i]; }
    }
  }

  /** The limiter before the n-th of those calls. */
  function BeforeCall(key: string, p: Policy, n: nat): Limiter
    requires n > 0
  {
    if n == 1 then FRESH else Limiter(map[key := Bucket(p.Capacity() - (n - 1) as real, 0.0)], Some(0.0))
  }

  lemma BurstTakesOne(key: string, p: Policy, maxEntries: nat, n: nat)
    requires p.Valid() && 0 < n <= p.burst && maxEntries > 0
    ensures var l := BeforeCall(key, p, n);
      var after := map[key := Bucket(p.Capacity() - n as real, 0.0)];
      && !Resets(l, maxEntries, 0.0)
      && Admit(l, maxEntries, key, p, 0.0).0 == Limiter(after, Some(0.0))
      && Visit(l.buckets, key, p, 0.0).0 == after
  {
    var l := BeforeCall(key, p, n);
    assert |l.buckets| <= 1;
    assert Evicted(l.buckets, 0.0) == l.buckets;
  }

  /** The runs that tell the limiters apart: drain the bucket, and call again just after the time to live. */
  function DrainAndReturn(key: string, p: Policy, extra: real): seq<Call>
    requires p.Valid()
  {
    Burst(key, p, p.burst) + [Call(key, p, IDLE_TTL + extra)]
  }

  lemma EvictionShows(key: string, p: Policy, maxEntries: nat, extra: real)
    requires p.Valid() && maxEntries > 0 && extra > 0.0 && Refill(p, IDLE_TTL + extra) < p.Capacity()
    ensures var cs := DrainAndReturn(key, p, extra);
      && InOrder(cs) && NeverResets(cs, maxEntries) && Run(cs, maxEntries).1 != Keep(cs).1
  {
    hide Take, Refill, NeverResets;
    var cs, n, now := DrainAndReturn(key, p, extra), p.burst, IDLE_TTL + extra;
    Drained(key, p, maxEntries, n);
    assert cs[..n] == Burst(key, p, n) && cs[n] == Call(key, p, now);
    var l := Run(cs[..n], maxEntries).0;
    assert Evicted(l.buckets, now) == map[];
    assert Swept(l, maxEntries, now).buckets == map[];
    RefillIsMonotone(p, now, now);
    assert Refilled(l.buckets[key], p, now).tokens == Refill(p, now) by { assert now - 0.0 == now; }
    assert Run(cs, maxEntries).1[n] == Take(Bucket(p.Capacity(), now), p, now).1;
    assert Keep(cs).1[n] == Take(Bucket(Refill(p, now), now), p, now).1;
    FullerTakesDifferently(p, Refill(p, now), now);
    LongerNeverResets(Burst(key, p, n), Call(key, p, now), maxEntries);
  }

  lemma LongerNeverResets(cs: seq<Call>, c: Call, maxEntries: nat)
    requires NeverResets(cs, maxEntries) && !Resets(Run(cs, maxEntries).0, maxEntries, c.at)
    ensures NeverResets(cs + [c], maxEntries)
  {
    hide Run, Resets;
    var longer := cs + [c];
    forall i | 0 <= i < |longer| ensures !Resets(Run(longer[..i], maxEntries).0, maxEntries, longer[i].at) {
      if i < |cs| { assert longer[..i] == cs[..i]; } else { assert longer[..i] == cs; }
    }
  }

  /** A full bucket and a fuller-to-be one are described differently. */
  lemma FullerTakesDifferently(p: Policy, tokens: real, now: real)
    requires p.Valid() && tokens < p.Capacity()
    ensures Take(Bucket(tokens, now), p, now).1 != Take(Bucket(p.Capacity(), now), p, now).1
  {
    var r := p.PerSecond();
    var left, full := Take(Bucket(tokens, now), p, now).0.tokens, Take(Bucket(p.Capacity(), now), p, now).0.tokens;
    if tokens >= 1.0 {
      assert left < full;
      assert (p.Capacity() - left) / r * r == p.Capacity() - left;
      assert (p.Capacity() - full) / r * r == p.Capacity() - full;
    }
  }

  /** Calls made with one policy only, in order and without a reset. */
  ghost predicate Ordinary(cs: seq<Call>, p: Policy, maxEntries: nat) {
    InOrder(cs) && (forall c | c in cs :: c.policy == p) && NeverResets(cs, maxEntries)
  }

  /**
   Eviction is invisible to every run under a policy exactly when the policy's burst is at most ten
   minutes' refill: otherwise draining a bucket and coming back just after the time to live shows it.
   */
  lemma EvictionIsInvisibleIff(p: Policy, maxEntries: nat)
    requires p.Valid() && maxEntries > 0
    ensures (forall cs: seq<Call> | Ordinary(cs, p, maxEntries) :: Run(cs, maxEntries).1 == Keep(cs).1)
      <==> p.Capacity() <= 10.0 * p.perMinute
  {
    hide Run, Keep, NeverResets, Refill;
    if p.Capacity() <= 10.0 * p.perMinute {
      forall cs: seq<Call> | Ordinary(cs, p, maxEntries) ensures Run(cs, maxEntries).1 == Keep(cs).1 {
        var policyOf: string -> Policy := key => p;
        EvictionIsInvisible(cs, policyOf, maxEntries);
      }
    } else {
      IdleRefill(p);
      var extra := ALittleMore(p, p.Capacity() - 10.0 * p.perMinute);
      RefillAdds(p, IDLE_TTL, extra);
      EvictionShows("key", p, maxEntries, extra);
      assert Ordinary(DrainAndReturn("key", p, extra), p, maxEntries);
    }
  }

  // ---------------------------------------------------------------------------------------------
  // How many calls get through
  // ---------------------------------------------------------------------------------------------

  /** What the key could draw on at an instant. */
  function Level(buckets: map<string, Bucket>, key: string, p: Policy, now: real): real {
    if key in buckets then Refilled(buckets[key], p, now).tokens else p.Capacity()
  }

  /** How many of the calls i to j - 1 were the key's and were allowed. */
  function Granted(cs: seq<Call>, ds: seq<Decision>, key: string, i: nat, j: nat): (n: nat)
    requires i <= j <= |cs| == |ds|
    decreases j - i
  {
    if i == j then 0
    else Granted(cs, ds, key, i, j - 1) + if cs[j - 1].key == key && ds[j - 1].allowed then 1 else 0
  }

  /** A visit costs its key one token when it is allowed, and nobody else anything. */
  lemma VisitCosts(buckets: map<string, Bucket>, c: Call, key: string, p: Policy)
    requires c.policy.Valid() && (c.key == key ==> c.policy == p)
    ensures var (next, d) := Visit(buckets, c.key, c.policy, c.at);
      Level(next, key, p, c.at) == Level(buckets, key, p, c.at) - if c.key == key && d.allowed then 1.0 else 0.0
  {
  }

  /** Waiting adds at most the refill of the time waited. */
  lemma LevelGrows(buckets: map<string, Bucket>, key: string, p: Policy, now: real, later: real)
    requires p.Valid() && now <= later && (key in buckets ==> buckets[key].lastSeen <= now && buckets[key].tokens <= p.Capacity())
    ensures Level(buckets, key, p, later) <= Level(buckets, key, p, now) + Refill(p, later - now)
  {
    hide Refill;
    RefillIsMonotone(p, later - now, later - now);
    if key in buckets {
      var b := buckets[key];
      RefillIsMonotone(p, now - b.lastSeen, now - b.lastSeen);
      RefillAdds(p, now - b.lastSeen, later - now);
      assert (now - b.lastSeen) + (later - now) == later - b.lastSeen;
    }
  }

  /** Up to the last call: what was granted and what is left come out of the level at the start and the refill since. */
  lemma {:induction false} GrantsAreFunded(cs: seq<Call>, policyOf: string -> Policy, key: string, i: nat, j: nat)
    requires InOrder(cs) && PolicyPerKey(cs, policyOf) && policyOf(key).Valid() && i < j <= |cs|
    ensures var p := policyOf(key);
      Granted(cs, Keep(cs).1, key, i, j) as real + Level(Keep(cs[..j]).0, key, p, cs[j - 1].at)
        <= Level(Keep(cs[..i]).0, key, p, cs[i].at) + Refill(p, cs[j - 1].at - cs[i].at)
    decreases j - i
  {
    hide Visit, Level, WithinBounds, Refill, Keep;
    var p := policyOf(key);
    var c := cs[j - 1];
    GrantAtCall(cs, policyOf, key, i, j);
    RefillIsMonotone(p, 0.0, 0.0);
    if i < j - 1 {
      GrantsAreFunded(cs, policyOf, key, i, j - 1);
      KeptWithinBounds(cs, policyOf, j - 1);
      var before := cs[j - 2].at;
      LevelAfterWait(Keep(cs[..j - 1]).0, policyOf, key, before, c.at);
      RefillAdds(p, before - cs[i].at, c.at - before);
      assert (before - cs[i].at) + (c.at - before) == c.at - cs[i].at;
    }
  }

  /** What the last call grants comes off the level. */
  lemma GrantAtCall(cs: seq<Call>, policyOf: string -> Policy, key: string, i: nat, j: nat)
    requires PolicyPerKey(cs, policyOf) && policyOf(key).Valid() && i < j <= |cs|
    ensures var p := policyOf(key);
      Granted(cs, Keep(cs).1, key, i, j) as real + Level(Keep(cs[..j]).0, key, p, cs[j - 1].at)
        == Granted(cs, Keep(cs).1, key, i, j - 1) as real + Level(Keep(cs[..j - 1]).0, key, p, cs[j - 1].at)
  {
    hide Visit, Level, Refill, Keep;
    assert cs[j - 1] in cs;
    KeptStep(cs, j);
    DecisionsPersist(cs, j);
    VisitCosts(Keep(cs[..j - 1]).0, cs[j - 1], key, policyOf(key));
  }

  lemma KeptStep(cs: seq<Call>, j: nat)
    requires 0 < j <= |cs| && forall c | c in cs :: c.policy.Valid()
    ensures Keep(cs[..j]).0 == Visit(Keep(cs[..j - 1]).0, cs[j - 1].key, cs[j - 1].policy, cs[j - 1].at).0
  {
    hide Visit;
    assert cs[..j][..j - 1] == cs[..j - 1];
  }

  lemma LevelAfterWait(buckets: map<string, Bucket>, policyOf: string -> Policy, key: string, now: real, later: real)
    requires WithinBounds(buckets, policyOf, now) && policyOf(key).Valid() && now <= later
    ensures Level(buckets, key, policyOf(key), later) <= Level(buckets, key, policyOf(key), now) + Refill(policyOf(key), later - now)
  {
    LevelGrows(buckets, key, policyOf(key), now, later);
  }

  /** What was decided at a call is not revised by later ones. */
  lemma {:induction false} DecisionsPersist(cs: seq<Call>, j: nat)
    requires 0 < j <= |cs| && forall c | c in cs :: c.policy.Valid()
    ensures Keep(cs).1[j - 1] == Visit(Keep(cs[..j - 1]).0, cs[j - 1].key, cs[j - 1].policy, cs[j - 1].at).1
  {
    hide Visit;
    var n := |cs| - 1;
    if j <= n {
      DecisionsPersist(cs[..n], j);
      assert cs[..n][..j - 1] == cs[..j - 1];
    } else {
      assert cs[..n] == cs[..j - 1];
    }
  }

  lemma {:induction false} KeptWithinBounds(cs: seq<Call>, policyOf: string -> Policy, j: nat)
    requires InOrder(cs) && PolicyPerKey(cs, policyOf) && 0 < j <= |cs|
    ensures WithinBounds(Keep(cs[..j]).0, policyOf, cs[j - 1].at)
  {
    hide Visit;
    var c := cs[j - 1];
    assert c in cs && cs[..j][..j - 1] == cs[..j - 1];
    if j > 1 {
      KeptWithinBounds(cs, policyOf, j - 1);
      assert cs[j - 2].at <= c.at;
      SeenBefore(Keep(cs[..j - 1]).0, policyOf, cs[j - 2].at, c.at);
    }
    VisitStaysWithin(Keep(cs[..j - 1]).0, policyOf, c);
  }

  lemma SeenBefore(buckets: map<string, Bucket>, policyOf: string -> Policy, now: real, later: real)
    requires WithinBounds(buckets, policyOf, now) && now <= later
    ensures WithinBounds(buckets, policyOf, later)
  {
  }

  lemma LevelIsBounded(buckets: map<string, Bucket>, policyOf: string -> Policy, key: string, now: real)
    requires WithinBounds(buckets, policyOf, now) && policyOf(key).Valid()
    ensures 0.0 <= Level(buckets, key, policyOf(key), now) <= policyOf(key).Capacity()
  {
    if key in buckets { RefillingStaysWithin(buckets[key], policyOf(key), now); }
  }

  /**
   Of one key's calls between s and t, at most the burst and the refill of that time are allowed, over
   every run with a clock that does not go back, one policy a key, bursts of at most ten minutes' refill
   and no reset.
   */
  lemma CallsAreRateBounded(cs: seq<Call>, policyOf: string -> Policy, maxEntries: nat, key: string, i: nat, j: nat, s: real, t: real)
    requires InOrder(cs) && PolicyPerKey(cs, policyOf) && BurstsBounded(policyOf) && NeverResets(cs, maxEntries)
    requires policyOf(key).Valid() && i <= j <= |cs| && s <= t
    requires forall n | i <= n < j :: s <= cs[n].at <= t
    ensures Granted(cs, Run(cs, maxEntries).1, key, i, j) as real
      <= policyOf(key).Capacity() + (t - s) * policyOf(key).perMinute / 60.0
  {
    hide Keep, Run, Level, WithinBounds, NeverResets, BurstsBounded, Refill, Granted, InOrder;
    EvictionIsInvisible(cs, policyOf, maxEntries);
    KeptCallsAreBounded(cs, policyOf, key, i, j, t - s);
    RefillPerMinute(policyOf(key), t - s);
  }

  lemma KeptCallsAreBounded(cs: seq<Call>, policyOf: string -> Policy, key: string, i: nat, j: nat, elapsed: real)
    requires InOrder(cs) && PolicyPerKey(cs, policyOf) && policyOf(key).Valid() && i <= j <= |cs| && 0.0 <= elapsed
    requires i < j ==> cs[j - 1].at - cs[i].at <= elapsed
    ensures Granted(cs, Keep(cs).1, key, i, j) as real <= policyOf(key).Capacity() + Refill(policyOf(key), elapsed)
  {
    hide Keep, Refill, Granted, InOrder;
    if i < j {
      GrantsWithinBurst(cs, policyOf, key, i, j);
      RefillIsMonotone(policyOf(key), cs[j - 1].at - cs[i].at, elapsed);
    } else {
      GrantedNone(cs, Keep(cs).1, key, i);
      RefillIsMonotone(policyOf(key), elapsed, elapsed);
    }
  }

  lemma GrantedNone(cs: seq<Call>, ds: seq<Decision>, key: string, i: nat)
    requires i <= |cs| == |ds|
    ensures Granted(cs, ds, key, i, i) == 0
  {
  }

  /** From one call to another: no more than the burst and the refill between them. */
  lemma GrantsWithinBurst(cs: seq<Call>, policyOf: string -> Policy, key: string, i: nat, j: nat)
    requires InOrder(cs) && PolicyPerKey(cs, policyOf) && policyOf(key).Valid() && i < j <= |cs|
    ensures Granted(cs, Keep(cs).1, key, i, j) as real
      <= policyOf(key).Capacity() + Refill(policyOf(key), cs[j - 1].at - cs[i].at)
  {
    hide Keep, Level, WithinBounds, Refill, Granted;
    GrantsAreFunded(cs, policyOf, key, i, j);
    KeptWithinBounds(cs, policyOf, j);
    LevelIsBounded(Keep(cs[..j]).0, policyOf, key, cs[j - 1].at);
    LevelAtStart(cs, policyOf, key, i);
  }

  lemma RefillPerMinute(p: Policy, elapsed: real)
    ensures Refill(p, elapsed) == elapsed * p.perMinute / 60.0
  {
  }

  lemma LevelAtStart(cs: seq<Call>, policyOf: string -> Policy, key: string, i: nat)
    requires InOrder(cs) && PolicyPerKey(cs, policyOf) && policyOf(key).Valid() && i < |cs|
    ensures Level(Keep(cs[..i]).0, key, policyOf(key), cs[i].at) <= policyOf(key).Capacity()
  {
    hide Level;
    if i > 0 {
      KeptWithinBounds(cs, policyOf, i);
      SeenBefore(Keep(cs[..i]).0, policyOf, cs[i - 1].at, cs[i].at);
      LevelIsBounded(Keep(cs[..i]).0, policyOf, key, cs[i].at);
    } else {
      NothingAgrees(policyOf, cs[i].at);
      assert cs[..0] == [];
      LevelIsBounded(map[], policyOf, key, cs[i].at);
    }
  }

  // ---------------------------------------------------------------------------------------------
  // Retry-After keeps its word
  // ---------------------------------------------------------------------------------------------

  /** The limiter after calls that follow on l. */
  function Continue(l: Limiter, cs: seq<Call>, maxEntries: nat): Limiter {
    if |cs| == 0 then l
    else
      var c := cs[|cs| - 1];
      Admit(Continue(l, cs[..|cs| - 1], maxEntries), maxEntries, c.key, c.policy, c.at).0
  }

  /** Calls by others leave a key's bucket alone or drop it whole, resets included. */
  lemma {:induction false} OthersLeaveBucket(l: Limiter, cs: seq<Call>, maxEntries: nat, key: string)
    requires forall c | c in cs :: c.key != key
    ensures var next := Continue(l, cs, maxEntries).buckets;
      key in next ==> key in l.buckets && next[key] == l.buckets[key]
  {
    hide Take, Refilled, Resets;
    if |cs| > 0 {
      assert cs[|cs| - 1] in cs;
      assert forall c | c in cs[..|cs| - 1] :: c in cs;
      OthersLeaveBucket(l, cs[..|cs| - 1], maxEntries, key);
    }
  }

  lemma CeilingCovers(x: real)
    ensures x <= Ceil(x) as real < x + 1.0
  {
  }

  /**
   A caller who is denied and comes back no sooner than it was told is allowed, whatever other keys did
   meanwhile and whether or not its bucket was evicted or the map reset.
   */
  lemma RetryAfterIsEnough(l: Limiter, maxEntries: nat, key: string, p: Policy, now: real, others: seq<Call>, later: real)
    requires p.Valid() && (forall c | c in others :: c.key != key)
    requires var (_, d) := Admit(l, maxEntries, key, p, now); !d.allowed && later >= now + d.retryAfter as real
    ensures var (denied, _) := Admit(l, maxEntries, key, p, now);
      Admit(Continue(denied, others, maxEntries), maxEntries, key, p, later).1.allowed
  {
    hide Swept, Continue;
    var (denied, d) := Admit(l, maxEntries, key, p, now);
    var between := Continue(denied, others, maxEntries);
    OthersLeaveBucket(denied, others, maxEntries, key);
    var swept := Swept(between, maxEntries, later).buckets;
    SweepingLeavesBucket(between, maxEntries, later, key);
    if key in swept {
      var b := denied.buckets[key];
      BucketAfterDenial(Swept(l, maxEntries, now).buckets, key, p, now);
      DenialIsRepaid(b, p, now, later);
    }
  }

  lemma SweepingLeavesBucket(l: Limiter, maxEntries: nat, now: real, key: string)
    ensures var swept := Swept(l, maxEntries, now).buckets; key in swept ==> key in l.buckets && swept[key] == l.buckets[key]
  {
  }

  lemma BucketAfterDenial(buckets: map<string, Bucket>, key: string, p: Policy, now: real)
    requires p.Valid() && !Visit(buckets, key, p, now).1.allowed
    ensures var (next, d) := Visit(buckets, key, p, now);
      && next[key].tokens < 1.0 && next[key].lastSeen == now
      && d.retryAfter == (var wait := Ceil((1.0 - next[key].tokens) / p.PerSecond()); if wait < 1 then 1 else wait)
  {
  }

  lemma DenialIsRepaid(b: Bucket, p: Policy, now: real, later: real)
    requires p.Valid() && b.tokens < 1.0 && b.lastSeen == now
    requires var wait := Ceil((1.0 - b.tokens) / p.PerSecond()); later >= now + (if wait < 1 then 1 else wait) as real
    ensures Refilled(b, p, later).tokens >= 1.0
  {
    var need := (1.0 - b.tokens) / p.PerSecond();
    CeilingCovers(need);
    assert Refill(p, need) == 1.0 - b.tokens;
    hide Refill;
    RefillIsMonotone(p, need, later - now);
  }

  // ---------------------------------------------------------------------------------------------
  // What a caller is told is so
  // ---------------------------------------------------------------------------------------------

  lemma AtLeastMeans(rate: real, need: real, elapsed: real)
    requires rate > 0.0
    ensures elapsed * rate >= need <==> elapsed >= need / rate
  {
    var q := need / rate;
    assert q * rate == need;
    if elapsed >= q { assert (elapsed - q) * rate >= 0.0; } else { assert (q - elapsed) * rate > 0.0; }
  }

  /** The number of whole seconds a denied caller is told to wait is the least after which its bucket holds a token. */
  lemma RetryAfterIsLeast(buckets: map<string, Bucket>, key: string, p: Policy, now: real, seconds: int)
    requires p.Valid() && seconds >= 1 && !Visit(buckets, key, p, now).1.allowed
    ensures var (next, d) := Visit(buckets, key, p, now);
      Visit(next, key, p, now + seconds as real).1.allowed <==> seconds >= d.retryAfter
  {
    var (next, d) := Visit(buckets, key, p, now);
    BucketAfterDenial(buckets, key, p, now);
    var b := next[key];
    var need := (1.0 - b.tokens) / p.PerSecond();
    AtLeastMeans(p.PerSecond(), 1.0 - b.tokens, seconds as real);
    CeilingCovers(need);
    assert Visit(next, key, p, now + seconds as real).1.allowed <==> Refilled(b, p, now + seconds as real).tokens >= 1.0;
  }

  /** A caller that is let through is told to wait for nothing, one that is not at least a second; both are told the burst. */
  lemma TellsLimit(buckets: map<string, Bucket>, key: string, p: Policy, now: real)
    requires p.Valid()
    ensures var d := Visit(buckets, key, p, now).1;
      d.limit == p.burst && (d.allowed ==> d.retryAfter == 0) && (!d.allowed ==> d.retryAfter >= 1)
  {
  }

  /** The reset a caller is told is the first instant at which its bucket, left alone, is full. */
  lemma ResetIsWhenFull(buckets: map<string, Bucket>, key: string, p: Policy, now: real, t: real)
    requires p.Valid() && t > now && (key in buckets ==> buckets[key].tokens <= p.Capacity())
    ensures var (next, d) := Visit(buckets, key, p, now);
      && key in next && d.reset > now && (Refilled(next[key], p, t).tokens == p.Capacity() <==> t >= d.reset)
  {
    var (next, d) := Visit(buckets, key, p, now);
    var left := next[key].tokens;
    assert left < p.Capacity();
    AtLeastMeans(p.PerSecond(), p.Capacity() - left, t - now);
    AtLeastMeans(p.PerSecond(), p.Capacity() - left, 0.0);
  }

  /** n calls of one caller at the same instant. */
  function Repeat(key: string, p: Policy, now: real, n: nat): (cs: seq<Call>)
    ensures |cs| == n
  {
    seq(n, i => Call(key, p, now))
  }

  lemma RepeatExtended(key: string, p: Policy, now: real, n: nat)
    requires n > 0
    ensures Repeat(key, p, now, n)[..n - 1] == Repeat(key, p, now, n - 1) && Repeat(key, p, now, n)[n - 1] == Call(key, p, now)
  {
  }

  /** No sweep is due, and the caller's bucket was just looked at. */
  predicate Settled(l: Limiter, maxEntries: nat, key: string, now: real) {
    && |l.buckets| <= maxEntries && l.lastSweep.Some? && now - l.lastSweep.value < SWEEP_INTERVAL
    && key in l.buckets && l.buckets[key].lastSeen == now
  }

  lemma AdmittingSettles(l: Limiter, maxEntries: nat, key: string, p: Policy, now: real)
    requires p.Valid() && |Admit(l, maxEntries, key, p, now).0.buckets| <= maxEntries
    requires key in l.buckets ==> l.buckets[key].tokens >= 0.0
    ensures var (next, d) := Admit(l, maxEntries, key, p, now);
      Settled(next, maxEntries, key, now) && key in next.buckets && next.buckets[key].tokens >= 0.0 && d.remaining == next.buckets[key].tokens.Floor
  {
    if key in l.buckets && now - l.buckets[key].lastSeen > 0.0 {
      RefillIsMonotone(p, 0.0, now - l.buckets[key].lastSeen);
      hide Refill;
      assert Refilled(l.buckets[key], p, now).tokens >= 0.0;
    }
    hide Evicted, Refill;
  }

  lemma SettledAdmits(l: Limiter, maxEntries: nat, key: string, p: Policy, now: real)
    requires p.Valid() && Settled(l, maxEntries, key, now)
    ensures var (next, d) := Admit(l, maxEntries, key, p, now); var t := l.buckets[key].tokens;
      && (d.allowed <==> t >= 1.0)
      && next == Limiter(l.buckets[key := Bucket(if t >= 1.0 then t - 1.0 else t, now)], l.lastSweep)
      && Settled(next, maxEntries, key, now)
  {
    assert l.buckets[key := Bucket(0.0, now)].Keys == l.buckets.Keys;
    var next := Admit(l, maxEntries, key, p, now).0;
    assert next.buckets.Keys == l.buckets.Keys;
    assert |next.buckets| == |next.buckets.Keys| && |l.buckets| == |l.buckets.Keys|;
  }

  /** n calls at once use up whole tokens while there are any. */
  lemma {:induction false} RepeatedUse(l: Limiter, maxEntries: nat, key: string, p: Policy, now: real, n: nat)
    requires p.Valid() && Settled(l, maxEntries, key, now) && l.buckets[key].tokens >= 0.0
    ensures var next := Continue(l, Repeat(key, p, now, n), maxEntries); var t := l.buckets[key].tokens;
      && Settled(next, maxEntries, key, now)
      && next.buckets[key].tokens == t - (if n < t.Floor then n else t.Floor) as real
  {
    hide Admit, Settled;
    if n > 0 {
      RepeatedUse(l, maxEntries, key, p, now, n - 1);
      RepeatExtended(key, p, now, n);
      var before := Continue(l, Repeat(key, p, now, n - 1), maxEntries);
      SettledAdmits(before, maxEntries, key, p, now);
    }
  }

  /**
   The remaining number a caller is told is exact: of any further calls it makes at once, exactly so many are
   let through, as long as the map is within its ceiling.
   */
  lemma RemainingIsExact(l: Limiter, maxEntries: nat, key: string, p: Policy, now: real, n: nat)
    requires p.Valid() && |Admit(l, maxEntries, key, p, now).0.buckets| <= maxEntries
    requires key in l.buckets ==> l.buckets[key].tokens >= 0.0
    ensures var (next, d) := Admit(l, maxEntries, key, p, now);
      Admit(Continue(next, Repeat(key, p, now, n), maxEntries), maxEntries, key, p, now).1.allowed <==> n < d.remaining
  {
    hide Admit, Continue, Settled;
    AdmittingSettles(l, maxEntries, key, p, now);
    var next := Admit(l, maxEntries, key, p, now).0;
    RepeatedUse(next, maxEntries, key, p, now, n);
    SettledAdmits(Continue(next, Repeat(key, p, now, n), maxEntries), maxEntries, key, p, now);
    var t := next.buckets[key].tokens;
    assert t - t.Floor as real < 1.0;
  }

  // ---------------------------------------------------------------------------------------------
  // The policies in use
  // ---------------------------------------------------------------------------------------------

  datatype EndpointClass = Search | List | Detail

  datatype Config = Config(anonymous: map<EndpointClass, Policy>, keyed: map<EndpointClass, Policy>)

  /** DefaultRateLimits. */
  const DEFAULTS := Config(
    map[Search := Policy(10, 20.0), List := Policy(30, 60.0), Detail := Policy(60, 120.0)],
    map[Search := Policy(60, 120.0), List := Policy(120, 300.0), Detail := Policy(300, 600.0)])

  function PolicyFor(config: Config, keyed: bool, endpoint: EndpointClass): Option<Policy> {
    var table := if keyed then config.keyed else config.anonymous;
    if endpoint in table && table[endpoint].Valid() then Some(table[endpoint])
    else if Detail in table && table[Detail].Valid() then Some(table[Detail])
    else None
  }

  /** The middleware's policy: a consumer's contracted rate overrides the class's, and caps its burst. */
  function EffectivePolicy(config: Config, contracted: Option<int>, endpoint: EndpointClass): Option<Policy> {
    var base := PolicyFor(config, contracted.Some?, endpoint);
    if base.Some? && contracted.Some? && contracted.value > 0 then
      Some(Policy(if base.value.burst > contracted.value then contracted.value else base.value.burst, contracted.value as real))
    else base
  }

  /** A policy that can meter at all. */
  predicate Usable(table: map<EndpointClass, Policy>, endpoint: EndpointClass) {
    endpoint in table && table[endpoint].burst > 0 && table[endpoint].perMinute > 0.0
  }

  /**
   The policy in force is that of the endpoint's class, or of the detail class when its own is unusable, from
   the table for callers with a key or without; a positive contracted rate replaces its rate and caps its burst.
   */
  lemma ContractedRateIsInForce(config: Config, contracted: Option<int>, endpoint: EndpointClass)
    ensures var p, table := EffectivePolicy(config, contracted, endpoint), if contracted.Some? then config.keyed else config.anonymous;
      var from := if Usable(table, endpoint) then endpoint else Detail;
      && (p.Some? <==> Usable(table, from))
      && (p.Some? && (contracted.None? || contracted.value <= 0) ==> p.value == table[from])
      && (p.Some? && contracted.Some? && contracted.value > 0 ==>
            && p.value.perMinute == contracted.value as real
            && p.value.burst <= table[from].burst && p.value.burst <= contracted.value
            && (p.value.burst == table[from].burst || p.value.burst == contracted.value))
  {
  }

  /** Whatever a consumer's contract says, the policy in force is valid and its burst is bounded. */
  lemma MiddlewarePoliciesAreBounded(contracted: Option<int>, endpoint: EndpointClass)
    ensures var p := EffectivePolicy(DEFAULTS, contracted, endpoint);
      p.Some? && p.value.Valid() && p.value.Capacity() <= 10.0 * p.value.perMinute
  {
  }
}
