/** Whole runs of the request limiter: forgetting is unobservable, admissions are bounded, shards stay small. */
module LimiterRuns {
  import opened FiniteSets
  import opened TokenBuckets

  /** A run: request `i` takes state `i` to state `i + 1`. */
  datatype Run = Run(states: seq<Shards>, requests: seq<Request>, allowed: seq<bool>, evicted: seq<set<IpAddr>>)

  ghost predicate IsRun(r: Run) {
    && |r.states| == |r.requests| + 1 && |r.allowed| == |r.evicted| == |r.requests|
    && (forall i, j :: 0 <= i <= j < |r.requests| ==> r.requests[i].now <= r.requests[j].now)
    && (forall i {:trigger r.requests[i]} :: 0 <= i < |r.requests| ==>
          Step(r.states[i], r.requests[i], r.states[i + 1], r.allowed[i], r.evicted[i]))
  }

  /** A new limiter has no buckets. */
  ghost predicate Starts(r: Run) {
    IsRun(r) && forall k :: 0 <= k < SHARD_COUNT ==> r.states[0][k].buckets == map[]
  }

  // ----- the reference: one map, nothing ever dropped -----

  type Ledger = map<IpAddr, Bucket>

  ghost predicate Usable(m: Ledger, now: real) {
    forall ip :: ip in m ==> m[ip].last <= now && 0.0 <= m[ip].tokens
  }

  ghost function Serve(m: Ledger, q: Request): (r: (Ledger, bool))
    requires Usable(m, q.now)
    ensures Usable(r.0, q.now)
  {
    var (b, ok) := Consume(BucketFor(m, q.ip, q.cls, q.now), q.cls, q.now);
    (m[q.ip := b], ok)
  }

  ghost predicate Ordered(qs: seq<Request>) {
    forall i, j :: 0 <= i <= j < |qs| ==> qs[i].now <= qs[j].now
  }

  /** The ledger after requests `i` to `k`. */
  ghost function LedgerAfter(m: Ledger, qs: seq<Request>, i: nat, k: nat): (r: Ledger)
    requires i <= k <= |qs| && Ordered(qs) && (i < |qs| ==> Usable(m, qs[i].now))
    ensures k < |qs| ==> Usable(r, qs[k].now)
    decreases k
  {
    if i == k then m else Serve(LedgerAfter(m, qs, i, k - 1), qs[k - 1]).0
  }

  /** Whether the reference, started with `m` at request `i`, admits request `k`. */
  ghost function Admits(m: Ledger, qs: seq<Request>, i: nat, k: nat): bool
    requires i <= k < |qs| && Ordered(qs) && Usable(m, qs[i].now)
  {
    Serve(LedgerAfter(m, qs, i, k), qs[k]).1
  }

  // ----- forgetting is unobservable -----

  /** What the limiter and the reference know about `ip`: the same, or the limiter has dropped a bucket idle for 600
      s. */
  ghost predicate Agree(shards: Shards, m: Ledger, ip: IpAddr, now: real) {
    AgreeOn(shards[ShardOf(ip)].buckets, m, ip, now)
  }

  ghost predicate AgreeOn(buckets: map<IpAddr, Bucket>, m: Ledger, ip: IpAddr, now: real) {
    if ip in buckets then ip in m && m[ip] == buckets[ip]
    else ip in m ==> now - m[ip].last >= 600.0
  }

  /** A bucket that has been idle for 600 s is full again, whatever class of request comes next. */
  lemma IdleIsFull(b: Bucket, c: Class, now: real)
    requires now - b.last >= 600.0 && 0.0 <= b.tokens
    ensures Consume(b, c, now) == Consume(Bucket(MaxTokens(c), now), c, now)
  {
    assert (now - b.last) * RefillRate(c) >= 600.0 * RefillRate(c);
  }

  /** Cleaning and making room keep agreement on every client that is not evicted. */
  lemma RoomAgrees(s: LimiterState, q: Request, kept: map<IpAddr, Bucket>, evicted: set<IpAddr>, m: Ledger, ip: IpAddr)
    requires MakesRoom(Cleaned(s, q.now).buckets, q.ip, q.now, kept, evicted)
    requires AgreeOn(s.buckets, m, ip, q.now) && ip !in evicted
    ensures AgreeOn(kept, m, ip, q.now)
  {
  }

  lemma StepAgrees(
      shards: Shards, q: Request, shards': Shards, allowed: bool, evicted: set<IpAddr>, m: Ledger, ip: IpAddr)
    requires Step(shards, q, shards', allowed, evicted) && Usable(m, q.now)
    requires Agree(shards, m, ip, q.now) && ip !in evicted
    ensures Agree(shards', Serve(m, q).0, ip, q.now)
    ensures q.ip == ip ==> allowed == Serve(m, q).1
  {
    hide ShardOf, Consume, MakesRoom, Cleaned;
    var s, k := shards[ShardOf(q.ip)], ShardOf(q.ip);
    if ShardOf(ip) == k {
      var kept :| MakesRoom(Cleaned(s, q.now).buckets, q.ip, q.now, kept, evicted) &&
          Serves(s, q, kept, shards'[k], allowed);
      RoomAgrees(s, q, kept, evicted, m, ip);
      if q.ip == ip && ip !in kept && ip in m {
        IdleIsFull(m[ip], q.cls, q.now);
      }
    }
  }

  lemma AgreeLater(shards: Shards, m: Ledger, ip: IpAddr, now: real, later: real)
    requires Agree(shards, m, ip, now) && now <= later
    ensures Agree(shards, m, ip, later)
  {
  }

  ghost predicate NotEvicted(r: Run, ip: IpAddr, i: nat, k: nat)
    requires IsRun(r) && i <= k <= |r.requests|
  {
    forall n :: i <= n < k ==> ip !in r.evicted[n]
  }

  /** From any point at which limiter and reference agree on `ip`, they agree as long as `ip` is not evicted. */
  lemma {:induction false} AgreeThroughout(r: Run, m: Ledger, ip: IpAddr, i: nat, k: nat)
    requires IsRun(r) && i <= k < |r.requests| && Usable(m, r.requests[i].now)
    requires Agree(r.states[i], m, ip, r.requests[i].now) && NotEvicted(r, ip, i, k + 1)
    ensures Agree(r.states[k], LedgerAfter(m, r.requests, i, k), ip, r.requests[k].now)
    ensures r.requests[k].ip == ip ==> r.allowed[k] == Admits(m, r.requests, i, k)
    decreases k
  {
    hide Step, Agree, Serve, Usable;
    var q := r.requests[k];
    if i < k {
      AgreeThroughout(r, m, ip, i, k - 1);
      var p := r.requests[k - 1];
      StepAgrees(r.states[k - 1], p, r.states[k], r.allowed[k - 1], r.evicted[k - 1],
          LedgerAfter(m, r.requests, i, k - 1), ip);
      AgreeLater(r.states[k], LedgerAfter(m, r.requests, i, k), ip, p.now, q.now);
    }
    StepAgrees(r.states[k], q, r.states[k + 1], r.allowed[k], r.evicted[k], LedgerAfter(m, r.requests, i, k), ip);
  }

  /** Sharding, cleanup and room-making are unobservable: a client that is never evicted gets the decisions of one
      map that never drops anything. */
  lemma ForgettingUnobservable(r: Run, k: nat)
    requires Starts(r) && k < |r.requests| && NotEvicted(r, r.requests[k].ip, 0, k + 1)
    ensures r.allowed[k] == Admits(map[], r.requests, 0, k)
  {
    hide ShardOf, Step, Serve;
    AgreeThroughout(r, map[], r.requests[k].ip, 0, k);
  }

  // ----- admissions are bounded -----

  /** How many of the requests `i` to `k` of `ip` were admitted. */
  ghost function Admitted(r: Run, ip: IpAddr, i: nat, k: nat): nat
    requires IsRun(r) && i <= k <= |r.requests|
    decreases k
  {
    if i == k then 0
    else Admitted(r, ip, i, k - 1) + if r.requests[k - 1].ip == ip && r.allowed[k - 1] then 1 else 0
  }

  /** All requests of `ip` from `i` to `k` are of class `c`, or any class is meant. */
  ghost predicate Only(r: Run, ip: IpAddr, i: nat, k: nat, c: Class)
    requires IsRun(r) && i <= k <= |r.requests|
  {
    forall n :: i <= n < k && r.requests[n].ip == ip && c.Login? ==> r.requests[n].cls.Login?
  }

  /** Tokens spent since `start` and tokens left never exceed a full bucket plus the refill since then. */
  ghost predicate Within(b: Bucket, c: Class, start: real, spent: real) {
    start <= b.last && 0.0 <= b.tokens && b.tokens + spent <= MaxTokens(c) + (b.last - start) * RefillRate(c)
  }

  ghost predicate Budget(r: Run, ip: IpAddr, i: nat, k: nat, c: Class, m: Ledger)
    requires IsRun(r) && i <= k <= |r.requests| && i < |r.requests|
  {
    var spent := Admitted(r, ip, i, k) as real;
    if exists n :: i <= n < k && r.requests[n].ip == ip then
      ip in m && Within(m[ip], c, r.requests[i].now, spent)
    else spent == 0.0
  }

  /** One request served keeps the budget. */
  lemma ServeBudget(b: Bucket, q: Request, c: Class, start: real, spent: real)
    requires b.last <= q.now && 0.0 <= b.tokens && start <= q.now && (c.Login? ==> q.cls.Login?) && 0.0 <= spent
    requires spent == 0.0 || Within(b, c, start, spent)
    ensures var (b', ok) := Consume(b, q.cls, q.now); Within(b', c, start, spent + if ok then 1.0 else 0.0)
  {
    match (c, q.cls)
    case (Login, Login) =>
    case (General, Login) =>
    case (General, General) =>
  }

  lemma {:induction false} BudgetKept(r: Run, m: Ledger, ip: IpAddr, i: nat, k: nat, c: Class)
    requires IsRun(r) && i <= k <= |r.requests| && i < |r.requests| && Usable(m, r.requests[i].now)
    requires Agree(r.states[i], m, ip, r.requests[i].now) && NotEvicted(r, ip, i, k) && Only(r, ip, i, k, c)
    ensures Budget(r, ip, i, k, c, LedgerAfter(m, r.requests, i, k))
    decreases k
  {
    hide Step, Agree, Serve, Budget, Usable, Only;
    if i < k {
      BudgetBefore(r, ip, i, k, c);
      BudgetKept(r, m, ip, i, k - 1, c);
      AgreeThroughout(r, m, ip, i, k - 1);
      BudgetStep(r, ip, i, k, c, LedgerAfter(m, r.requests, i, k - 1));
    } else {
      NothingSpent(r, ip, i, c, m);
    }
  }

  lemma BudgetBefore(r: Run, ip: IpAddr, i: nat, k: nat, c: Class)
    requires IsRun(r) && i < k <= |r.requests| && Only(r, ip, i, k, c)
    ensures Only(r, ip, i, k - 1, c)
  {
    hide Step;
  }

  lemma NothingSpent(r: Run, ip: IpAddr, i: nat, c: Class, m: Ledger)
    requires IsRun(r) && i < |r.requests|
    ensures Budget(r, ip, i, i, c, m)
  {
    hide Step;
  }

  lemma BudgetStep(r: Run, ip: IpAddr, i: nat, k: nat, c: Class, ledger: Ledger)
    requires IsRun(r) && i < k <= |r.requests| && Only(r, ip, i, k, c) && Usable(ledger, r.requests[k - 1].now)
    requires Budget(r, ip, i, k - 1, c, ledger)
    requires r.requests[k - 1].ip == ip ==> r.allowed[k - 1] == Serve(ledger, r.requests[k - 1]).1
    ensures Budget(r, ip, i, k, c, Serve(ledger, r.requests[k - 1]).0)
  {
    hide Step, Consume, Within, BucketFor;
    var q := r.requests[k - 1];
    var spent := Admitted(r, ip, i, k - 1) as real;
    if q.ip == ip {
      var b := BucketFor(ledger, ip, q.cls, q.now);
      BucketUsable(ledger, q);
      if spent != 0.0 {
        assert b == ledger[ip] by {
          BucketKnown(ledger, q);
        }
      }
      ServeBudget(b, q, c, r.requests[i].now, spent);
      assert r.requests[k - 1].ip == ip;
    } else {
      assert Admitted(r, ip, i, k) == Admitted(r, ip, i, k - 1);
      assert (exists n :: i <= n < k && r.requests[n].ip == ip)
          <==> (exists n :: i <= n < k - 1 && r.requests[n].ip == ip);
    }
  }

  lemma BucketKnown(m: Ledger, q: Request)
    ensures q.ip in m ==> BucketFor(m, q.ip, q.cls, q.now) == m[q.ip]
  {
  }

  lemma BucketUsable(m: Ledger, q: Request)
    requires Usable(m, q.now)
    ensures var b := BucketFor(m, q.ip, q.cls, q.now); b.last <= q.now && 0.0 <= b.tokens
  {
  }

  /** In any stretch of a run in which `ip` is not evicted it is admitted at most `2000 + 100 T` times, and at most
      `10 + T / 2` times if all its requests there are logins, where `T` is the time the stretch takes. */
  lemma AdmissionBound(r: Run, ip: IpAddr, i: nat, k: nat, c: Class)
    requires IsRun(r) && i < k <= |r.requests| && NotEvicted(r, ip, i, k) && Only(r, ip, i, k, c)
    ensures var time := r.requests[k - 1].now - r.requests[i].now;
            Admitted(r, ip, i, k) as real <= if c.Login? then 10.0 + 0.5 * time else 2000.0 + 100.0 * time
  {
    hide Step, Within, Serve, IsRun, NotEvicted, Only, Agree, Ordered, LedgerAfter, Snapshot, Admitted;
    RunOrdered(r, i, k - 1);
    var m := Snapshot(r, ip, i);
    BudgetKept(r, m, ip, i, k, c);
    LedgerTimes(m, r.requests, i, k, ip);
    var ledger := LedgerAfter(m, r.requests, i, k);
    WithinBounds(if ip in ledger then ledger[ip] else Bucket(0.0, r.requests[i].now), c,
      r.requests[i].now, r.requests[k - 1].now, Admitted(r, ip, i, k) as real);
  }

  lemma RunOrdered(r: Run, i: nat, k: nat)
    requires IsRun(r) && i <= k < |r.requests|
    ensures Ordered(r.requests) && r.requests[i].now <= r.requests[k].now
  {
    hide Step;
  }

  lemma WithinBounds(b: Bucket, c: Class, start: real, end: real, spent: real)
    requires start <= end && b.last <= end && (spent == 0.0 || Within(b, c, start, spent))
    ensures spent <= if c.Login? then 10.0 + 0.5 * (end - start) else 2000.0 + 100.0 * (end - start)
  {
    assert (end - start) * RefillRate(c) >= 0.0;
    if spent != 0.0 {
      assert (b.last - start) * RefillRate(c) <= (end - start) * RefillRate(c);
    }
  }

  /** What the limiter knows about `ip` at request `i`. */
  ghost function Snapshot(r: Run, ip: IpAddr, i: nat): (m: Ledger)
    requires IsRun(r) && i < |r.requests|
    ensures Usable(m, r.requests[i].now) && Agree(r.states[i], m, ip, r.requests[i].now)
  {
    var buckets := r.states[i][ShardOf(ip)].buckets;
    if ip in buckets then map[ip := buckets[ip]] else map[]
  }

  lemma {:induction false} LedgerTimes(m: Ledger, qs: seq<Request>, i: nat, k: nat, ip: IpAddr)
    requires i < k <= |qs| && Ordered(qs) && Usable(m, qs[i].now)
    ensures Usable(LedgerAfter(m, qs, i, k), qs[k - 1].now)
  {
  }

  // ----- shards stay small -----

  ghost predicate Small(shards: Shards) {
    forall k :: 0 <= k < 16 ==> |shards[k].buckets| <= 10000
  }

  lemma PartSmaller(part: map<IpAddr, Bucket>, whole: map<IpAddr, Bucket>)
    requires Part(part, whole)
    ensures |part| <= |whole|
  {
    assert part.Keys <= whole.Keys;
    SubsetSize(part.Keys, whole.Keys);
  }

  lemma RoomIsEnough(s: LimiterState, q: Request, kept: map<IpAddr, Bucket>, evicted: set<IpAddr>)
    requires MakesRoom(Cleaned(s, q.now).buckets, q.ip, q.now, kept, evicted) && |s.buckets| <= MAX_BUCKETS
    ensures |kept| <= MAX_BUCKETS && (q.ip !in kept ==> |kept| < MAX_BUCKETS)
  {
    SweptPart(s.buckets, q.now);
    PartSmaller(Swept(s.buckets, q.now), s.buckets);
    var full := Cleaned(s, q.now).buckets;
    assert Swept(full, q.now).Keys <= full.Keys;
    PartSmaller(Swept(full, q.now), full);
    if evicted != {} {
      var oldest :| IsOldest(Swept(full, q.now), oldest) && kept == Swept(full, q.now) - {oldest} &&
          evicted == {oldest};
      assert kept.Keys == Swept(full, q.now).Keys - {oldest};
    }
  }

  lemma StepStaysSmall(shards: Shards, q: Request, shards': Shards, allowed: bool, evicted: set<IpAddr>)
    requires Step(shards, q, shards', allowed, evicted) && Small(shards)
    ensures Small(shards')
  {
    hide ShardOf, Consume, MakesRoom, Cleaned;
    var s, k := shards[ShardOf(q.ip)], ShardOf(q.ip);
    var kept :| MakesRoom(Cleaned(s, q.now).buckets, q.ip, q.now, kept, evicted) &&
        Serves(s, q, kept, shards'[k], allowed);
    RoomIsEnough(s, q, kept, evicted);
    assert shards'[k].buckets.Keys == kept.Keys + {q.ip};
  }

  /** On every run, evictions included, no shard ever holds more than 10000 buckets. */
  lemma {:induction false} AlwaysSmall(r: Run, i: nat)
    requires Starts(r) && i <= |r.requests|
    ensures Small(r.states[i])
  {
    hide Step;
    if i > 0 {
      AlwaysSmall(r, i - 1);
      StepStaysSmall(r.states[i - 1], r.requests[i - 1], r.states[i], r.allowed[i - 1], r.evicted[i - 1]);
    }
  }

  /** A client is evicted only from a full shard of clients all seen within the last 600 s, for the sake of another
      client, and no client of that shard has waited longer. */
  lemma EvictionIsLastResort(
      shards: Shards, q: Request, shards': Shards, allowed: bool, evicted: set<IpAddr>, ip: IpAddr)
    requires Step(shards, q, shards', allowed, evicted) && ip in evicted
    ensures var fresh' := Swept(shards[ShardOf(q.ip)].buckets, q.now);
            |fresh'| >= 10000 && IsOldest(fresh', ip) && q.ip !in fresh'
  {
    hide ShardOf, Consume, IsOldest;
    var s := shards[ShardOf(q.ip)];
    var full := Cleaned(s, q.now).buckets;
    SweptPart(s.buckets, q.now);
    PartSmaller(Swept(s.buckets, q.now), s.buckets);
    assert full == Swept(s.buckets, q.now);
    assert Swept(full, q.now) == full;
  }

  /** Every bucket is in its client's own shard. */
  ghost predicate Placed(shards: Shards) {
    forall k, ip :: 0 <= k < SHARD_COUNT && ip in shards[k].buckets ==> ShardOf(ip) == k
  }

  lemma StepPlaces(shards: Shards, q: Request, shards': Shards, allowed: bool, evicted: set<IpAddr>)
    requires Step(shards, q, shards', allowed, evicted) && Placed(shards)
    ensures Placed(shards')
  {
    hide ShardOf, Consume, MakesRoom, Cleaned;
    var s, k := shards[ShardOf(q.ip)], ShardOf(q.ip);
    var kept :| MakesRoom(Cleaned(s, q.now).buckets, q.ip, q.now, kept, evicted) &&
        Serves(s, q, kept, shards'[k], allowed);
    KeptIsPart(s, q, kept, evicted);
  }

  lemma {:induction false} AlwaysPlaced(r: Run, i: nat)
    requires Starts(r) && i <= |r.requests|
    ensures Placed(r.states[i])
  {
    hide Step;
    if i > 0 {
      AlwaysPlaced(r, i - 1);
      StepPlaces(r.states[i - 1], r.requests[i - 1], r.states[i], r.allowed[i - 1], r.evicted[i - 1]);
    }
  }

  /** An evicted client has no bucket any more. */
  lemma EvictedIsGone(shards: Shards, q: Request, shards': Shards, allowed: bool, evicted: set<IpAddr>, ip: IpAddr)
    requires Step(shards, q, shards', allowed, evicted) && Placed(shards) && ip in evicted
    ensures ip != q.ip && ip !in shards'[ShardOf(ip)].buckets
  {
    hide ShardOf, Consume;
    var s, k := shards[ShardOf(q.ip)], ShardOf(q.ip);
    var kept :| MakesRoom(Cleaned(s, q.now).buckets, q.ip, q.now, kept, evicted) &&
        Serves(s, q, kept, shards'[k], allowed);
    assert ip in s.buckets;
  }

  /** A client without a bucket gets none before its next request. */
  lemma {:induction false} StaysGone(r: Run, ip: IpAddr, i: nat, k: nat)
    requires IsRun(r) && i <= k <= |r.requests| && ip !in r.states[i][ShardOf(ip)].buckets
    requires forall n :: i <= n < k ==> r.requests[n].ip != ip
    ensures ip !in r.states[k][ShardOf(ip)].buckets
    decreases k
  {
    hide ShardOf, Step;
    if i < k {
      StaysGone(r, ip, i, k - 1);
      if ip in r.states[k][ShardOf(ip)].buckets {
        StepTimes(r.states[k - 1], r.requests[k - 1], r.states[k], r.allowed[k - 1], r.evicted[k - 1], ShardOf(ip), ip);
      }
    }
  }

  lemma NewcomerAllowed(shards: Shards, q: Request, shards': Shards, allowed: bool, evicted: set<IpAddr>)
    requires Step(shards, q, shards', allowed, evicted) && q.ip !in shards[ShardOf(q.ip)].buckets
    ensures allowed
  {
    hide ShardOf, IsOldest;
    var s, k := shards[ShardOf(q.ip)], ShardOf(q.ip);
    var kept :| MakesRoom(Cleaned(s, q.now).buckets, q.ip, q.now, kept, evicted) &&
        Serves(s, q, kept, shards'[k], allowed);
    assert q.ip !in kept;
  }

  /** The exception is needed: the next request of an evicted client is always admitted, where the reference admits it
      only if the client's bucket has refilled. */
  lemma EvictionObservable(r: Run, ip: IpAddr, i: nat, k: nat)
    requires Starts(r) && i < k < |r.requests| && ip in r.evicted[i]
    requires r.requests[k].ip == ip && forall n :: i < n < k ==> r.requests[n].ip != ip
    ensures r.allowed[k]
    ensures var m, q := LedgerAfter(map[], r.requests, 0, k), r.requests[k];
            Admits(map[], r.requests, 0, k) <==> (ip in m ==> Refilled(m[ip], q.cls, q.now) >= 1.0)
  {
    hide ShardOf, Step, Placed, LedgerAfter;
    AlwaysPlaced(r, i);
    EvictedIsGone(r.states[i], r.requests[i], r.states[i + 1], r.allowed[i], r.evicted[i], ip);
    StaysGone(r, ip, i + 1, k);
    NewcomerAllowed(r.states[k], r.requests[k], r.states[k + 1], r.allowed[k], r.evicted[k]);
  }

  // ----- refusals are earned -----

  /** The last use of every bucket is the time of one of its client's requests. */
  ghost predicate TimesKnown(r: Run, k: nat)
    requires IsRun(r) && k <= |r.requests|
  {
    forall s, ip :: 0 <= s < SHARD_COUNT && ip in r.states[k][s].buckets ==>
        UsedAt(r, k, ip, r.states[k][s].buckets[ip].last)
  }

  ghost predicate UsedAt(r: Run, k: nat, ip: IpAddr, t: real)
    requires IsRun(r) && k <= |r.requests|
  {
    exists n :: 0 <= n < k && r.requests[n].ip == ip && r.requests[n].now == t
  }

  /** A step keeps buckets as they are, except for the client's own, which is used now. */
  lemma StepTimes(shards: Shards, q: Request, shards': Shards, allowed: bool, evicted: set<IpAddr>, s: nat, ip: IpAddr)
    requires Step(shards, q, shards', allowed, evicted) && s < SHARD_COUNT && ip in shards'[s].buckets
    ensures (ip == q.ip && shards'[s].buckets[ip].last == q.now)
         || (ip in shards[s].buckets && shards[s].buckets[ip] == shards'[s].buckets[ip])
  {
    hide ShardOf, Consume, MakesRoom, Swept;
    var k := ShardOf(q.ip);
    if s == k {
      var kept :| MakesRoom(Cleaned(shards[k], q.now).buckets, q.ip, q.now, kept, evicted) &&
          Serves(shards[k], q, kept, shards'[k], allowed);
      KeptIsPart(shards[k], q, kept, evicted);
    }
  }

  lemma KeptIsPart(s: LimiterState, q: Request, kept: map<IpAddr, Bucket>, evicted: set<IpAddr>)
    requires MakesRoom(Cleaned(s, q.now).buckets, q.ip, q.now, kept, evicted)
    ensures Part(kept, s.buckets)
  {
    hide IsOldest;
  }

  lemma {:induction false} TimesAlwaysKnown(r: Run, k: nat)
    requires Starts(r) && k <= |r.requests|
    ensures TimesKnown(r, k)
  {
    hide Step;
    if k > 0 {
      TimesAlwaysKnown(r, k - 1);
      forall s, ip | 0 <= s < SHARD_COUNT && ip in r.states[k][s].buckets
        ensures UsedAt(r, k, ip, r.states[k][s].buckets[ip].last)
      {
        var q := r.requests[k - 1];
        StepTimes(r.states[k - 1], q, r.states[k], r.allowed[k - 1], r.evicted[k - 1], s, ip);
        if ip in r.states[k - 1][s].buckets && r.states[k - 1][s].buckets[ip] == r.states[k][s].buckets[ip] {
          assert UsedAt(r, k - 1, ip, r.states[k][s].buckets[ip].last);
        }
      }
    }
  }

  lemma PacedConsume(b: Bucket, c: Class, now: real)
    requires 0.0 <= b.tokens && b.last <= now && (if c.Login? then now - b.last >= 2.0 else now - b.last >= 0.01)
    ensures Consume(b, c, now).1
  {
    assert (now - b.last) * RefillRate(c) >= 1.0;
  }

  /** A client whose earlier requests are all at least 2 s back for a login, or 10 ms for any other request, is
      admitted. */
  lemma PacedIsAdmitted(r: Run, k: nat)
    requires Starts(r) && k < |r.requests|
    requires forall n :: 0 <= n < k && r.requests[n].ip == r.requests[k].ip ==>
               r.requests[k].now - r.requests[n].now >= if r.requests[k].cls.Login? then 2.0 else 0.01
    ensures r.allowed[k]
  {
    hide ShardOf, Consume, Step;
    TimesAlwaysKnown(r, k);
    var q := r.requests[k];
    PacedStep(r.states[k], q, r.states[k + 1], r.allowed[k], r.evicted[k]);
  }

  lemma PacedStep(shards: Shards, q: Request, shards': Shards, allowed: bool, evicted: set<IpAddr>)
    requires Step(shards, q, shards', allowed, evicted)
    requires var buckets := shards[ShardOf(q.ip)].buckets;
             q.ip in buckets ==> q.now - buckets[q.ip].last >= if q.cls.Login? then 2.0 else 0.01
    ensures allowed
  {
    hide ShardOf, Consume, MakesRoom, Cleaned;
    var s, k := shards[ShardOf(q.ip)], ShardOf(q.ip);
    var kept :| MakesRoom(Cleaned(s, q.now).buckets, q.ip, q.now, kept, evicted) &&
        Serves(s, q, kept, shards'[k], allowed);
    KeptIsPart(s, q, kept, evicted);
    if q.ip in kept {
      PacedConsume(kept[q.ip], q.cls, q.now);
    } else {
      FullConsume(q.cls, q.now);
    }
  }

  lemma FullConsume(c: Class, now: real)
    ensures Consume(Bucket(MaxTokens(c), now), c, now).1
  {
  }

  // ----- bursts are admitted -----

  /** How many of the requests `i` to `k` are of `ip`. */
  ghost function Requested(r: Run, ip: IpAddr, i: nat, k: nat): nat
    requires i <= k <= |r.requests|
    decreases k
  {
    if i == k then 0 else Requested(r, ip, i, k - 1) + if r.requests[k - 1].ip == ip then 1 else 0
  }

  /** A bucket of `ip`, if there is one, holds all but `spent` of the tokens it can hold for class `c`. */
  ghost predicate Holds(shards: Shards, ip: IpAddr, c: Class, spent: nat, now: real) {
    var buckets := shards[ShardOf(ip)].buckets;
    ip in buckets ==> Refilled(buckets[ip], c, now) >= MaxTokens(c) - spent as real
  }

  lemma RefillGrows(b: Bucket, c: Class, now: real, later: real)
    requires now <= later
    ensures Refilled(b, c, now) <= Refilled(b, c, later)
  {
    assert (now - b.last) * RefillRate(c) <= (later - b.last) * RefillRate(c);
  }

  lemma HoldsLater(shards: Shards, ip: IpAddr, c: Class, spent: nat, now: real, later: real)
    requires Holds(shards, ip, c, spent, now) && now <= later
    ensures Holds(shards, ip, c, spent, later)
  {
    hide ShardOf, Refilled;
    var buckets := shards[ShardOf(ip)].buckets;
    if ip in buckets {
      RefillGrows(buckets[ip], c, now, later);
    }
  }

  /** A bucket idle for 600 s is full. */
  lemma IdleRefills(b: Bucket, c: Class, now: real)
    requires now - b.last >= 600.0 && 0.0 <= b.tokens
    ensures Refilled(b, c, now) == MaxTokens(c)
  {
    assert (now - b.last) * RefillRate(c) >= 600.0 * RefillRate(c);
  }

  /** The client's own request is served from a bucket that holds as much, and takes one token at most. */
  lemma ServedFrom(shards: Shards, q: Request, shards': Shards, allowed: bool, evicted: set<IpAddr>, spent: nat)
    requires Step(shards, q, shards', allowed, evicted) && Holds(shards, q.ip, q.cls, spent, q.now)
    ensures Holds(shards', q.ip, q.cls, spent + 1, q.now)
    ensures spent as real <= MaxTokens(q.cls) - 1.0 ==> allowed
  {
    hide ShardOf, MakesRoom, Cleaned;
    var s, k := shards[ShardOf(q.ip)], ShardOf(q.ip);
    var kept :| MakesRoom(Cleaned(s, q.now).buckets, q.ip, q.now, kept, evicted)
                && Serves(s, q, kept, shards'[k], allowed);
    KeptIsPart(s, q, kept, evicted);
    var b := BucketFor(kept, q.ip, q.cls, q.now);
    assert Refilled(b, q.cls, q.now) >= MaxTokens(q.cls) - spent as real;
  }

  lemma HoldsThrough(shards: Shards, q: Request, shards': Shards, allowed: bool, evicted: set<IpAddr>, ip: IpAddr,
                     c: Class, spent: nat)
    requires Step(shards, q, shards', allowed, evicted) && Holds(shards, ip, c, spent, q.now) && q.ip != ip
    ensures Holds(shards', ip, c, spent, q.now)
  {
    hide ShardOf, Refilled, Step;
    if ip in shards'[ShardOf(ip)].buckets {
      StepTimes(shards, q, shards', allowed, evicted, ShardOf(ip), ip);
    }
  }

  lemma {:induction false} BurstHolds(r: Run, ip: IpAddr, i: nat, k: nat, c: Class)
    requires Starts(r) && i <= k < |r.requests| && TimesKnown(r, i)
    requires forall n :: 0 <= n < i && r.requests[n].ip == ip ==> r.requests[i].now - r.requests[n].now >= 600.0
    requires forall n :: i <= n < k && r.requests[n].ip == ip ==> r.requests[n].cls == c
    ensures Holds(r.states[k], ip, c, Requested(r, ip, i, k), r.requests[k].now)
    decreases k
  {
    hide ShardOf, Step, Refilled, Holds;
    if i == k {
      IdleHolds(r, ip, i, c);
    } else {
      BurstHolds(r, ip, i, k - 1, c);
      var q, spent := r.requests[k - 1], Requested(r, ip, i, k - 1);
      if q.ip == ip {
        ServedFrom(r.states[k - 1], q, r.states[k], r.allowed[k - 1], r.evicted[k - 1], spent);
      } else {
        HoldsThrough(r.states[k - 1], q, r.states[k], r.allowed[k - 1], r.evicted[k - 1], ip, c, spent);
      }
      HoldsLater(r.states[k], ip, c, Requested(r, ip, i, k), q.now, r.requests[k].now);
    }
  }

  lemma IdleHolds(r: Run, ip: IpAddr, i: nat, c: Class)
    requires IsRun(r) && i < |r.requests| && TimesKnown(r, i)
    requires forall n :: 0 <= n < i && r.requests[n].ip == ip ==> r.requests[i].now - r.requests[n].now >= 600.0
    ensures Holds(r.states[i], ip, c, 0, r.requests[i].now)
  {
    hide ShardOf, Refilled, ShardStep;
    var buckets := r.states[i][ShardOf(ip)].buckets;
    if ip in buckets {
      var n :| 0 <= n < i && r.requests[n].ip == ip && r.requests[n].now == buckets[ip].last;
      assert Step(r.states[i], r.requests[i], r.states[i + 1], r.allowed[i], r.evicted[i]);
      IdleRefills(buckets[ip], c, r.requests[i].now);
    }
  }

  /** A burst is admitted. On every run, evictions included: of the requests a client makes after 600 s without any, or
      from the start, the first 2000 are admitted if all are general, and the first 10 if all are logins. */
  lemma BurstAdmitted(r: Run, i: nat, k: nat, login: bool)
    requires Starts(r) && i <= k < |r.requests|
    requires forall n :: 0 <= n < i && r.requests[n].ip == r.requests[k].ip ==>
               r.requests[i].now - r.requests[n].now >= 600.0
    requires forall n :: i <= n <= k && r.requests[n].ip == r.requests[k].ip ==> r.requests[n].cls.Login? == login
    requires Requested(r, r.requests[k].ip, i, k) < if login then 10 else 2000
    ensures r.allowed[k]
  {
    hide ShardOf, Step, Refilled, Holds;
    var q := r.requests[k];
    TimesAlwaysKnown(r, i);
    BurstHolds(r, q.ip, i, k, q.cls);
    ServedFrom(r.states[k], q, r.states[k + 1], r.allowed[k], r.evicted[k], Requested(r, q.ip, i, k));
  }

  // ----- stale buckets go -----

  /** A request that finds its shard full, or not cleaned for 61 s, leaves no bucket in it that was idle for 600 s. */
  lemma StaleGone(shards: Shards, q: Request, shards': Shards, allowed: bool, evicted: set<IpAddr>, ip: IpAddr)
    requires Step(shards, q, shards', allowed, evicted)
    requires var s := shards[ShardOf(q.ip)]; q.now - s.lastCleanup >= 61.0 || |s.buckets| >= 10000
    requires ip in shards'[ShardOf(q.ip)].buckets
    ensures q.now - shards'[ShardOf(q.ip)].buckets[ip].last < 600.0
    ensures shards'[ShardOf(q.ip)].lastCleanup == q.now
  {
    hide ShardOf, Consume, IsOldest;
    var s, k := shards[ShardOf(q.ip)], ShardOf(q.ip);
    var kept :| MakesRoom(Cleaned(s, q.now).buckets, q.ip, q.now, kept, evicted)
                && Serves(s, q, kept, shards'[k], allowed);
    ConsumeTime(BucketFor(kept, q.ip, q.cls, q.now), q.cls, q.now);
  }

  lemma ConsumeTime(b: Bucket, c: Class, now: real)
    requires b.last <= now && 0.0 <= b.tokens
    ensures Consume(b, c, now).0.last == now
  {
  }

  /** Otherwise the other clients' buckets stay as they are. */
  lemma OthersUntouched(
      shards: Shards, q: Request, shards': Shards, allowed: bool, evicted: set<IpAddr>, ip: IpAddr, k: nat)
    requires Step(shards, q, shards', allowed, evicted) && ip != q.ip && k < 16
    requires k == ShardOf(q.ip) ==> q.now - shards[k].lastCleanup < 61.0 && |shards[k].buckets| < 10000
    ensures (ip in shards'[k].buckets <==> ip in shards[k].buckets) && (k == ShardOf(q.ip) ==> evicted == {})
    ensures ip in shards[k].buckets ==> shards'[k].buckets[ip] == shards[k].buckets[ip]
  {
    hide ShardOf, Consume, IsOldest;
    var s := shards[ShardOf(q.ip)];
    var kept :| MakesRoom(Cleaned(s, q.now).buckets, q.ip, q.now, kept, evicted)
                && Serves(s, q, kept, shards'[ShardOf(q.ip)], allowed);
  }
}
