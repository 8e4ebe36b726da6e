/** The request limiter: sharded token buckets with stale cleanup and emergency eviction. */
module TokenBuckets {
  /** The sixteen octets that decide a client's shard; IPv4 addresses fill the last four. */
  type Octets = s: seq<bv8> | |s| == 16 witness seq(16, _ => 0)

  datatype IpAddr = V4(a: bv8, b: bv8, c: bv8, d: bv8) | V6(octets: Octets)

  function OctetsOf(ip: IpAddr): Octets {
    match ip
    case V4(a, b, c, d) => [0, 0, 0, 0, 0, 0, 0, 0, 0, 0, 0, 0, a, b, c, d]
    case V6(o) => o
  }

  const SHARD_COUNT: nat := 16
  const MAX_BUCKETS: nat := 10000

  function FnvStep(hash: bv64, octet: bv8): bv64 {
    (hash ^ (octet as bv64)) * 0x100_0000_01b3
  }

  /** FNV-1a over the first `k` octets. */
  function Fnv(o: Octets, k: nat): bv64
    requires k <= 16
  {
    if k == 0 then 0xcbf2_9ce4_8422_2325 else FnvStep(Fnv(o, k - 1), o[k - 1])
  }

  ghost function ShardOf(ip: IpAddr): (k: nat)
    ensures k < SHARD_COUNT
  {
    (Fnv(OctetsOf(ip), 16) as nat) % SHARD_COUNT
  }

  /** The hash of one address, step by step: 192.168.1.7 goes to shard 1. */
  lemma FnvSteps()
    ensures FnvStep(0xcbf2_9ce4_8422_2325, 0) == 0xaf63_bd4c_8601_b7df
    ensures FnvStep(0xaf63_bd4c_8601_b7df, 0) == 0x0832_8807_b4eb_6fed
    ensures FnvStep(0x0832_8807_b4eb_6fed, 0) == 0xd94d_1218_6c0f_2fb7
    ensures FnvStep(0xd94d_1218_6c0f_2fb7, 0) == 0x4d25_767f_9dce_13f5
    ensures FnvStep(0x4d25_767f_9dce_13f5, 0) == 0xe4bc_4fd9_252b_e94f
    ensures FnvStep(0xe4bc_4fd9_252b_e94f, 0) == 0xd7e4_fcfa_299d_713d
    ensures FnvStep(0xd7e4_fcfa_299d_713d, 0) == 0x778b_1a14_b687_6aa7
    ensures FnvStep(0x778b_1a14_b687_6aa7, 0) == 0xa8c7_f832_281a_39c5
    ensures FnvStep(0xa8c7_f832_281a_39c5, 0) == 0xe604_823a_2490_29bf
    ensures FnvStep(0xe604_823a_2490_29bf, 0) == 0x69d3_07cc_20f6_ef8d
    ensures FnvStep(0x69d3_07cc_20f6_ef8d, 0) == 0xc885_ccdc_0399_0c97
    ensures FnvStep(0xc885_ccdc_0399_0c97, 0) == 0x5467_b0da_1d10_6495
    ensures FnvStep(0x5467_b0da_1d10_6495, 192) == 0x7c95_d79f_62da_7c6f
    ensures FnvStep(0x7c95_d79f_62da_7c6f, 168) == 0x8d1a_2ad4_f942_0625
    ensures FnvStep(0x8d1a_2ad4_f942_0625, 1) == 0x057c_ebe3_8b30_6f2c
    ensures FnvStep(0x057c_ebe3_8b30_6f2c, 7) == 0x83b3_fea5_834c_e611
  {
  }

  lemma SampleShard()
    ensures Fnv(OctetsOf(V4(192, 168, 1, 7)), 16) == 0x83b3_fea5_834c_e611 && ShardOf(V4(192, 168, 1, 7)) == 1
  {
    hide FnvStep;
    FnvSteps();
    var o := OctetsOf(V4(192, 168, 1, 7));
    assert Fnv(o, 1) == 0xaf63_bd4c_8601_b7df;
    assert Fnv(o, 2) == 0x0832_8807_b4eb_6fed;
    assert Fnv(o, 3) == 0xd94d_1218_6c0f_2fb7;
    assert Fnv(o, 4) == 0x4d25_767f_9dce_13f5;
    assert Fnv(o, 5) == 0xe4bc_4fd9_252b_e94f;
    assert Fnv(o, 6) == 0xd7e4_fcfa_299d_713d;
    assert Fnv(o, 7) == 0x778b_1a14_b687_6aa7;
    assert Fnv(o, 8) == 0xa8c7_f832_281a_39c5;
    assert Fnv(o, 9) == 0xe604_823a_2490_29bf;
    assert Fnv(o, 10) == 0x69d3_07cc_20f6_ef8d;
    assert Fnv(o, 11) == 0xc885_ccdc_0399_0c97;
    assert Fnv(o, 12) == 0x5467_b0da_1d10_6495;
    assert Fnv(o, 13) == 0x7c95_d79f_62da_7c6f;
    assert Fnv(o, 14) == 0x8d1a_2ad4_f942_0625;
    assert Fnv(o, 15) == 0x057c_ebe3_8b30_6f2c;
    assert Fnv(o, 16) == 0x83b3_fea5_834c_e611;
  }

  method ShardIndex(ip: IpAddr) returns (k: nat)
    ensures k == ShardOf(ip)
  {
    hide FnvStep;
    var hash: bv64 := 0xcbf2_9ce4_8422_2325;
    var o := OctetsOf(ip);
    for i := 0 to 16
      invariant hash == Fnv(o, i)
    {
      hash := FnvStep(hash, o[i]);
    }
    k := (hash as nat) % SHARD_COUNT;
  }

  // ----- one bucket -----

  datatype Bucket = Bucket(tokens: real, last: real)

  datatype Class = General | Login

  function MaxTokens(c: Class): real {
    if c.Login? then 10.0 else 2000.0
  }

  function RefillRate(c: Class): real {
    if c.Login? then 0.5 else 100.0
  }

  function Refilled(b: Bucket, c: Class, now: real): real {
    var t := b.tokens + (now - b.last) * RefillRate(c);
    if t <= MaxTokens(c) then t else MaxTokens(c)
  }

  /** The bucket after a request at `now`, and whether the request is admitted. */
  function Consume(b: Bucket, c: Class, now: real): (r: (Bucket, bool))
    requires b.last <= now && 0.0 <= b.tokens
    ensures r.0.last == now && 0.0 <= r.0.tokens <= MaxTokens(c)
    ensures r.1 <==> Refilled(b, c, now) >= 1.0
  {
    var t := Refilled(b, c, now);
    if t >= 1.0 then (Bucket(t - 1.0, now), true) else (Bucket(t, now), false)
  }

  // ----- one shard -----

  datatype LimiterState = LimiterState(buckets: map<IpAddr, Bucket>, lastCleanup: real)

  datatype Request = Request(ip: IpAddr, cls: Class, now: real)

  /** The whole seconds of a duration stay below 600 exactly when the duration does. */
  predicate Fresh(b: Bucket, now: real) {
    now - b.last < 600.0
  }

  function Swept(buckets: map<IpAddr, Bucket>, now: real): map<IpAddr, Bucket> {
    map ip | ip in buckets && Fresh(buckets[ip], now) :: buckets[ip]
  }

  /** More than 60 whole seconds have passed, or the shard is full. */
  function Cleaned(s: LimiterState, now: real): LimiterState {
    if now - s.lastCleanup >= 61.0 || |s.buckets| >= MAX_BUCKETS then LimiterState(Swept(s.buckets, now), now) else s
  }

  ghost predicate IsOldest(buckets: map<IpAddr, Bucket>, ip: IpAddr) {
    ip in buckets && forall other :: other in buckets ==> buckets[ip].last <= buckets[other].last
  }

  /** Making room for `ip`: nothing, or one bucket that has waited longest. */
  ghost predicate MakesRoom(
      buckets: map<IpAddr, Bucket>, ip: IpAddr, now: real, kept: map<IpAddr, Bucket>, evicted: set<IpAddr>) {
    if |buckets| >= MAX_BUCKETS && ip !in buckets then
      var fresh' := Swept(buckets, now);
      if |fresh'| >= MAX_BUCKETS then
        exists oldest :: IsOldest(fresh', oldest) && kept == fresh' - {oldest} && evicted == {oldest}
      else kept == fresh' && evicted == {}
    else kept == buckets && evicted == {}
  }

  /** All times in the shard lie in the past and no bucket is overdrawn. */
  predicate Current(s: LimiterState, now: real) {
    s.lastCleanup <= now && forall ip :: ip in s.buckets ==>
        s.buckets[ip].last <= now && 0.0 <= s.buckets[ip].tokens <= 2000.0
  }

  function BucketFor(buckets: map<IpAddr, Bucket>, ip: IpAddr, c: Class, now: real): Bucket {
    if ip in buckets then buckets[ip] else Bucket(MaxTokens(c), now)
  }

  ghost predicate ShardStep(s: LimiterState, q: Request, s': LimiterState, allowed: bool, evicted: set<IpAddr>) {
    && Current(s, q.now)
    && exists kept :: MakesRoom(Cleaned(s, q.now).buckets, q.ip, q.now, kept, evicted) &&
        Serves(s, q, kept, s', allowed)
  }

  /** Serving `q` from the buckets in `kept`. */
  ghost predicate Serves(s: LimiterState, q: Request, kept: map<IpAddr, Bucket>, s': LimiterState, allowed: bool) {
    var b := BucketFor(kept, q.ip, q.cls, q.now);
    && b.last <= q.now && 0.0 <= b.tokens
    && var (b', ok) := Consume(b, q.cls, q.now);
       s' == LimiterState(kept[q.ip := b'], Cleaned(s, q.now).lastCleanup) && allowed == ok
  }

  // ----- the sharded limiter -----

  type Shards = s: seq<LimiterState> | |s| == SHARD_COUNT witness seq(SHARD_COUNT, _ => LimiterState(map[], 0.0))

  ghost predicate AllCurrent(shards: Shards, now: real) {
    forall k :: 0 <= k < SHARD_COUNT ==> Current(shards[k], now)
  }

  /** One request of the sharded limiter: only the client's own shard changes. */
  ghost predicate Step(shards: Shards, q: Request, shards': Shards, allowed: bool, evicted: set<IpAddr>) {
    var k := ShardOf(q.ip);
    AllCurrent(shards, q.now) && shards' == shards[k := shards'[k]] &&
        ShardStep(shards[k], q, shards'[k], allowed, evicted)
  }

  class RateLimiter {
    var shards: Shards

    constructor (now: real)
      ensures forall k :: 0 <= k < SHARD_COUNT ==> shards[k] == LimiterState(map[], now)
    {
      shards := seq(SHARD_COUNT, _ => LimiterState(map[], now));
    }

    /** The bucket part of `RateLimitMiddleware::call`, with one clock reading per request. */
    method Call(ip: IpAddr, isLogin: bool, now: real) returns (allowed: bool, ghost evicted: set<IpAddr>)
      requires AllCurrent(shards, now)
      modifies this
      ensures Step(old(shards), Request(ip, if isLogin then Login else General, now), shards, allowed, evicted)
      ensures AllCurrent(shards, now)
    {
      hide ShardOf, Consume, MakesRoom, Swept;
      var k := ShardIndex(ip);
      ghost var before := shards[k];
      var cls := if isLogin then Login else General;
      var buckets, lastCleanup := shards[k].buckets, shards[k].lastCleanup;
      if now - lastCleanup >= 61.0 || |buckets| >= MAX_BUCKETS {
        buckets, lastCleanup := Swept(buckets, now), now;
        SweptPart(before.buckets, now);
      }
      assert LimiterState(buckets, lastCleanup) == Cleaned(before, now);
      buckets, evicted := MakeRoom(buckets, ip, now);
      var bucket := BucketFor(buckets, ip, cls, now);
      var (bucket', ok) := Consume(bucket, cls, now);
      allowed := ok;
      assert Serves(before, Request(ip, cls, now), buckets, LimiterState(buckets[ip := bucket'], lastCleanup), allowed);
      shards := shards[k := LimiterState(buckets[ip := bucket'], lastCleanup)];
    }
  }

  /** `part` holds some of the buckets of `whole`, unchanged. */
  ghost predicate Part(part: map<IpAddr, Bucket>, whole: map<IpAddr, Bucket>) {
    forall ip :: ip in part ==> ip in whole && part[ip] == whole[ip]
  }

  lemma SweptPart(buckets: map<IpAddr, Bucket>, now: real)
    ensures Part(Swept(buckets, now), buckets)
  {
  }

  /** The emergency path for a shard that is full of fresh buckets. */
  method MakeRoom(buckets: map<IpAddr, Bucket>, ip: IpAddr, now: real)
    returns (kept: map<IpAddr, Bucket>, ghost evicted: set<IpAddr>)
    ensures MakesRoom(buckets, ip, now, kept, evicted) && Part(kept, buckets)
  {
    hide IsOldest;
    kept, evicted := buckets, {};
    if |kept| >= MAX_BUCKETS && ip !in kept {
      kept := Swept(kept, now);
      if |kept| >= MAX_BUCKETS {
        var oldest := Oldest(kept);
        kept := kept - {oldest};
        evicted := {oldest};
      }
    }
  }

  /** `min_by_key` over the time of last use. */
  method Oldest(buckets: map<IpAddr, Bucket>) returns (ip: IpAddr)
    requires |buckets| > 0
    ensures IsOldest(buckets, ip)
  {
    var todo := buckets.Keys;
    assert todo != {};
    ip :| ip in todo;
    while todo != {}
      invariant todo <= buckets.Keys && ip in buckets
      invariant forall other :: other in buckets && other !in todo ==> buckets[ip].last <= buckets[other].last
    {
      var next :| next in todo;
      if buckets[next].last < buckets[ip].last {
        ip := next;
      }
      todo := todo - {next};
    }
  }
}
