/** The coordinator's fixed-window limiter. */
module FixedWindow {
  /** Requests counted in the current window (a `u32`), and when the window began. */
  datatype Window = Window(count: nat, start: real)

  type Table<Ip> = map<Ip, Window>

  const MAX_PER_WINDOW: nat := 20
  const WRAP: nat := 0x1_0000_0000

  function Pruned<Ip>(m: Table<Ip>, now: real): Table<Ip> {
    if |m| > 100_000 then map ip | ip in m && now - m[ip].start < 60.0 :: m[ip] else m
  }

  /** The window a request at `now` falls into, before it is counted. */
  function Opened<Ip>(m: Table<Ip>, ip: Ip, now: real): Window {
    if ip in m && now - m[ip].start < 1.0 then m[ip] else Window(0, now)
  }

  /** The window with one more request counted. */
  function Counted(w: Window): Window {
    Window((w.count + 1) % WRAP, w.start)
  }

  class Limiter<Ip(==)> {
    var state: Table<Ip>

    constructor ()
      ensures state == map[]
    {
      state := map[];
    }

    /** `RateLimiter::allow`. */
    method Allow(ip: Ip, now: real) returns (ok: bool)
      modifies this
      ensures (state, ok) == Served(old(state), ip, now)
    {
      if |state| > 100_000 {
        state := map k | k in state && now - state[k].start < 60.0 :: state[k];
      }
      var entry := if ip in state then state[ip] else Window(0, now);
      if now - entry.start >= 1.0 {
        entry := Window(0, now);
      }
      entry := Window((entry.count + 1) % WRAP, entry.start);
      state := state[ip := entry];
      ok := entry.count <= MAX_PER_WINDOW;
    }
  }

  function Served<Ip>(m: Table<Ip>, ip: Ip, now: real): (Table<Ip>, bool) {
    Noted(Pruned(m, now), ip, now)
  }

  /** Serving without pruning. */
  function Noted<Ip>(m: Table<Ip>, ip: Ip, now: real): (Table<Ip>, bool) {
    var w := Counted(Opened(m, ip, now));
    (m[ip := w], w.count <= MAX_PER_WINDOW)
  }

  // ----- traces -----

  datatype Request<Ip> = Request(ip: Ip, now: real)

  ghost predicate Ordered<Ip>(qs: seq<Request<Ip>>) {
    forall i, j :: 0 <= i <= j < |qs| ==> qs[i].now <= qs[j].now
  }

  /** The table before request `k`. */
  ghost function StateAt<Ip>(qs: seq<Request<Ip>>, k: nat): Table<Ip>
    requires k <= |qs|
  {
    if k == 0 then map[] else Served(StateAt(qs, k - 1), qs[k - 1].ip, qs[k - 1].now).0
  }

  ghost function Allowed<Ip>(qs: seq<Request<Ip>>, k: nat): bool
    requires k < |qs|
  {
    Served(StateAt(qs, k), qs[k].ip, qs[k].now).1
  }

  /** The table of a limiter that never prunes, before request `k`. */
  ghost function LedgerAt<Ip>(qs: seq<Request<Ip>>, k: nat): Table<Ip>
    requires k <= |qs|
  {
    if k == 0 then map[] else Noted(LedgerAt(qs, k - 1), qs[k - 1].ip, qs[k - 1].now).0
  }

  /** The two tables know the same about `ip`, or a window that is long over has been pruned. */
  ghost predicate Agree<Ip>(m: Table<Ip>, ledger: Table<Ip>, ip: Ip, now: real) {
    if ip in m then ip in ledger && ledger[ip] == m[ip]
    else ip in ledger ==> now - ledger[ip].start >= 60.0
  }

  lemma NotedAgree<Ip>(m: Table<Ip>, ledger: Table<Ip>, ip: Ip, q: Request<Ip>)
    requires Agree(m, ledger, ip, q.now)
    ensures Agree(Served(m, q.ip, q.now).0, Noted(ledger, q.ip, q.now).0, ip, q.now)
    ensures q.ip == ip ==> Served(m, ip, q.now).1 == Noted(ledger, ip, q.now).1
  {
    assert Agree(Pruned(m, q.now), ledger, ip, q.now);
  }

  lemma {:induction false} AlwaysAgree<Ip>(qs: seq<Request<Ip>>, k: nat, ip: Ip, now: real)
    requires k <= |qs| && Ordered(qs) && (k > 0 ==> qs[k - 1].now <= now)
    ensures Agree(StateAt(qs, k), LedgerAt(qs, k), ip, now)
  {
    if k > 0 {
      var q := qs[k - 1];
      AlwaysAgree(qs, k - 1, ip, q.now);
      NotedAgree(StateAt(qs, k - 1), LedgerAt(qs, k - 1), ip, q);
    }
  }

  /** Pruning never changes a decision. */
  lemma PruningUnobservable<Ip>(qs: seq<Request<Ip>>, k: nat)
    requires k < |qs| && Ordered(qs)
    ensures Allowed(qs, k) == Noted(LedgerAt(qs, k), qs[k].ip, qs[k].now).1
  {
    AlwaysAgree(qs, k, qs[k].ip, qs[k].now);
    NotedAgree(StateAt(qs, k), LedgerAt(qs, k), qs[k].ip, qs[k]);
  }

  // ----- the admission bound -----

  /** How many of the requests `i` to `k` of `ip` are admitted. */
  ghost function Admitted<Ip>(qs: seq<Request<Ip>>, ip: Ip, i: nat, k: nat): nat
    requires i <= k <= |qs|
    decreases k
  {
    if i == k then 0
    else Admitted(qs, ip, i, k - 1) + if qs[k - 1].ip == ip && Allowed(qs, k - 1) then 1 else 0
  }

  /** The counter of `ip` does not wrap around within requests `i` to `k`. */
  ghost predicate NoWrap<Ip>(qs: seq<Request<Ip>>, ip: Ip, i: nat, k: nat)
    requires i <= k <= |qs|
  {
    forall n :: i <= n < k && qs[n].ip == ip ==> Opened(LedgerAt(qs, n), ip, qs[n].now).count + 1 < WRAP
  }

  function AtMost20(n: nat): nat {
    if n <= MAX_PER_WINDOW then n else MAX_PER_WINDOW
  }

  /** After `spent` admissions since `a`, `w` windows have begun, at least a second apart; the current one is `cur`. */
  ghost predicate Tally(spent: nat, w: nat, cur: Window, a: real) {
    spent <= MAX_PER_WINDOW * w + AtMost20(cur.count) && (w >= 1 ==> a + (w - 1) as real <= cur.start)
  }

  /** The windows of `ip` seen so far in the stretch from `i` to `k`. */
  ghost predicate Seen<Ip>(m: Table<Ip>, ip: Ip, spent: nat, w: nat, a: real) {
    if ip in m then Tally(spent, w, m[ip], a) else spent == 0 && w == 0
  }

  lemma {:induction false} WindowsCount<Ip>(qs: seq<Request<Ip>>, ip: Ip, i: nat, k: nat) returns (w: nat)
    requires i <= k <= |qs| && i < |qs| && Ordered(qs) && NoWrap(qs, ip, i, k)
    ensures Seen(LedgerAt(qs, k), ip, Admitted(qs, ip, i, k), w, qs[i].now)
    decreases k
  {
    hide Seen, Noted, Allowed, Opened;
    if i == k {
      NothingSeen(LedgerAt(qs, k), ip, qs[i].now);
      return 0;
    }
    w := WindowsCount(qs, ip, i, k - 1);
    if qs[k - 1].ip == ip {
      PruningUnobservable(qs, k - 1);
    }
    w := SeenStep(LedgerAt(qs, k - 1), ip, Admitted(qs, ip, i, k - 1), w, qs[i].now, qs[k - 1]);
  }

  lemma NothingSeen<Ip>(m: Table<Ip>, ip: Ip, a: real)
    ensures Seen(m, ip, 0, 0, a)
  {
  }

  lemma SeenStep<Ip>(m: Table<Ip>, ip: Ip, spent: nat, w: nat, a: real, q: Request<Ip>) returns (w': nat)
    requires Seen(m, ip, spent, w, a) && a <= q.now
    requires q.ip == ip ==> Opened(m, ip, q.now).count + 1 < WRAP
    ensures var (m', ok) := Noted(m, q.ip, q.now);
            Seen(m', ip, spent + (if q.ip == ip && ok then 1 else 0), w', a)
  {
    w' := if q.ip != ip || (ip in m && q.now - m[ip].start < 1.0) then w else w + 1;
  }

  function Ceil(x: real): int {
    if x.Floor as real == x then x.Floor else x.Floor + 1
  }

  ghost predicate StartsBy<Ip>(m: Table<Ip>, now: real) {
    forall ip :: ip in m ==> m[ip].start <= now
  }

  lemma {:induction false} LedgerStarts<Ip>(qs: seq<Request<Ip>>, k: nat, now: real)
    requires k <= |qs| && Ordered(qs) && (k > 0 ==> qs[k - 1].now <= now)
    ensures StartsBy(LedgerAt(qs, k), now)
  {
    if k > 0 {
      LedgerStarts(qs, k - 1, qs[k - 1].now);
    }
  }

  /** How many of the first `k` requests are of `ip` and not before `since`. */
  ghost function Since<Ip>(qs: seq<Request<Ip>>, k: nat, ip: Ip, since: real): nat
    requires k <= |qs|
  {
    if k == 0 then 0 else Since(qs, k - 1, ip, since) + if qs[k - 1].ip == ip && since <= qs[k - 1].now then 1 else 0
  }

  /** A window counts no more requests than there were since it began. */
  lemma {:induction false} CountIsReal<Ip>(qs: seq<Request<Ip>>, k: nat, ip: Ip)
    requires k <= |qs| && Ordered(qs)
    ensures var m := LedgerAt(qs, k); ip in m ==> m[ip].count <= Since(qs, k, ip, m[ip].start)
  {
    if k > 0 {
      CountIsReal(qs, k - 1, ip);
      LedgerStarts(qs, k - 1, qs[k - 1].now);
    }
  }

  /** How many of the first `k` requests are of `ip` and less than a second old at `now`. */
  function Recent<Ip(==)>(qs: seq<Request<Ip>>, k: nat, ip: Ip, now: real): nat
    requires k <= |qs|
  {
    if k == 0 then 0 else Recent(qs, k - 1, ip, now) + if qs[k - 1].ip == ip && now - qs[k - 1].now < 1.0 then 1 else 0
  }

  lemma {:induction false} SinceRecent<Ip>(qs: seq<Request<Ip>>, k: nat, ip: Ip, since: real, now: real)
    requires k <= |qs| && now - since < 1.0
    ensures Since(qs, k, ip, since) <= Recent(qs, k, ip, now)
  {
    if k > 0 {
      SinceRecent(qs, k - 1, ip, since, now);
    }
  }

  /** Every request of `ip` among `i` to `k` has fewer than `n` earlier ones less than a second old. */
  predicate Sparse<Ip(==)>(qs: seq<Request<Ip>>, ip: Ip, i: nat, k: nat, n: int)
    requires i <= k <= |qs|
  {
    forall j :: i <= j < k && qs[j].ip == ip ==> Recent(qs, j, ip, qs[j].now) < n
  }

  /** A client's counter wraps around only when it makes `2^32` requests within a second. */
  lemma SparseNoWrap<Ip>(qs: seq<Request<Ip>>, ip: Ip, i: nat, k: nat)
    requires i <= k <= |qs| && Ordered(qs) && Sparse(qs, ip, i, k, WRAP - 1)
    ensures NoWrap(qs, ip, i, k)
  {
    hide Since, Recent, LedgerAt;
    forall n | i <= n < k && qs[n].ip == ip ensures Opened(LedgerAt(qs, n), ip, qs[n].now).count + 1 < WRAP {
      var m := LedgerAt(qs, n);
      if ip in m && qs[n].now - m[ip].start < 1.0 {
        CountIsReal(qs, n, ip);
        SinceRecent(qs, n, ip, m[ip].start, qs[n].now);
      }
    }
  }

  /** Requests `i` to `k` lie in a half-open interval of `len` seconds. */
  predicate Spans<Ip>(qs: seq<Request<Ip>>, i: nat, k: nat, len: real) {
    i < k <= |qs| && qs[k - 1].now < qs[i].now + len
  }

  /** Of requests that lie in a half-open interval of `len` seconds, at most `20 * (1 + ceil(len))` of one client's are
      admitted, unless it makes `2^32` requests within a second. */
  lemma WindowBound<Ip>(qs: seq<Request<Ip>>, ip: Ip, i: nat, k: nat, len: real)
    requires Ordered(qs) && Spans(qs, i, k, len) && Sparse(qs, ip, i, k, 0xFFFF_FFFF)
    ensures Admitted(qs, ip, i, k) <= 20 * (1 + Ceil(len))
  {
    hide Sparse, NoWrap, Admitted, LedgerAt;
    SparseNoWrap(qs, ip, i, k);
    var w := WindowsCount(qs, ip, i, k);
    LedgerStarts(qs, k, qs[k - 1].now);
    assert qs[i].now <= qs[k - 1].now;
    assert len > 0.0;
    assert w >= 1 ==> (w - 1) as real < len;
    assert w <= Ceil(len);
  }

  /** No greater number of requests within a second will do: the bound holds on all traces whose requests have fewer
      than `n` recent earlier ones exactly if `n` is at most `2^32 - 1`. */
  lemma WindowBoundExact<Ip>(ip: Ip, n: int)
    ensures (forall qs: seq<Request<Ip>>, i: nat, k: nat, len: real ::
               Ordered(qs) && Spans(qs, i, k, len) && Sparse(qs, ip, i, k, n) ==>
                   Admitted(qs, ip, i, k) <= 20 * (1 + Ceil(len)))
       <==> n <= 0xFFFF_FFFF
  {
    hide Ordered, Admitted, Recent, Bursts, Ceil;
    if n <= WRAP - 1 {
      forall qs: seq<Request<Ip>>, i: nat, k: nat, len: real
        | Ordered(qs) && Spans(qs, i, k, len) && Sparse(qs, ip, i, k, n)
        ensures Admitted(qs, ip, i, k) <= 20 * (1 + Ceil(len))
      {
        WindowBound(qs, ip, i, k, len);
      }
    } else {
      var qs, len := Bursts(ip, 0.0, true, 21 * WRAP), 20.5;
      BurstsSparse(ip, n);
      BurstsExceed(ip);
      assert Ordered(qs) && Spans(qs, 0, |qs|, len) && Sparse(qs, ip, 0, |qs|, n);
    }
  }

  // ----- the exception is real -----

  /** The time of request `k` in bursts of `2^32` requests each, all at one instant or a second apart. */
  function BurstTime(now: real, apart: bool, k: nat): real {
    if apart then now + (k / WRAP) as real else now
  }

  /** `n` requests of one client in bursts. */
  function Bursts<Ip>(ip: Ip, now: real, apart: bool, n: nat): (qs: seq<Request<Ip>>)
    ensures |qs| == n && forall k :: 0 <= k < n ==> qs[k] == Request(ip, BurstTime(now, apart, k))
  {
    seq(n, k requires 0 <= k => Request(ip, BurstTime(now, apart, k)))
  }

  lemma BurstsOrdered<Ip>(ip: Ip, now: real, apart: bool, n: nat)
    ensures Ordered(Bursts(ip, now, apart, n))
  {
    hide Bursts, BurstTime;
    var qs := Bursts(ip, now, apart, n);
    forall i, j | 0 <= i <= j < n ensures qs[i].now <= qs[j].now {
      TimesOrdered(now, apart, i, j);
    }
  }

  lemma TimesOrdered(now: real, apart: bool, i: nat, j: nat)
    requires i <= j
    ensures BurstTime(now, apart, i) <= BurstTime(now, apart, j)
  {
  }

  lemma {:induction false} BurstCount<Ip>(ip: Ip, now: real, apart: bool, n: nat, k: nat)
    requires k <= n
    ensures LedgerAt(Bursts(ip, now, apart, n), k)
         == if k == 0 then map[] else map[ip := Window(k % WRAP, BurstTime(now, apart, k - 1))]
  {
    hide Bursts, Noted, BurstTime;
    if k > 0 {
      BurstCount(ip, now, apart, n, k - 1);
      BurstStep(ip, now, apart, k);
    }
  }

  lemma BurstStep<Ip>(ip: Ip, now: real, apart: bool, k: nat)
    requires k > 0
    ensures var m := if k == 1 then map[] else map[ip := Window((k - 1) % WRAP, BurstTime(now, apart, k - 2))];
            var t := BurstTime(now, apart, k - 1);
            Noted(m, ip, t) == (map[ip := Window(k % WRAP, t)], k % WRAP <= MAX_PER_WINDOW)
  {
    CountTurns(k);
    var t := BurstTime(now, apart, k - 1);
    if k == 1 {
      var none: Table<Ip> := map[];
      assert Opened(none, ip, t) == Window(0, t);
    } else {
      CountTurns(k - 1);
      var m, w := map[ip := Window((k - 1) % WRAP, BurstTime(now, apart, k - 2))], Window(k % WRAP, t);
      assert Opened(m, ip, t) == Window((k - 1) % WRAP, t);
      assert m[ip := w] == map[ip := w];
    }
  }

  /** 21 requests are admitted for every full turn of the counter, and 20 at most of the rest. */
  lemma {:induction false} BurstAdmitted<Ip>(ip: Ip, now: real, apart: bool, n: nat, k: nat)
    requires k <= n
    ensures Admitted(Bursts(ip, now, apart, n), ip, 0, k)
         == 21 * (k / 0x1_0000_0000) + AtMost20(k % 0x1_0000_0000)
  {
    hide Bursts, BurstTime, Ordered, Allowed, LedgerAt, Noted;
    if k > 0 {
      BurstAdmitted(ip, now, apart, n, k - 1);
      BurstCount(ip, now, apart, n, k - 1);
      BurstStep(ip, now, apart, k);
      BurstsOrdered(ip, now, apart, n);
      PruningUnobservable(Bursts(ip, now, apart, n), k - 1);
      CountTurns(k);
    }
  }

  lemma CountTurns(k: nat)
    requires k > 0
    ensures ((k - 1) % WRAP + 1) % WRAP == k % WRAP
    ensures k % WRAP == 0 ==> k / WRAP == (k - 1) / WRAP + 1 && (k - 1) % WRAP == WRAP - 1
    ensures k % WRAP != 0 ==> k / WRAP == (k - 1) / WRAP && (k - 1) % WRAP == k % WRAP - 1
  {
  }

  /** At a single instant the bound of 40 is kept exactly up to `2^32 + 19` requests. */
  lemma BurstBound<Ip>(ip: Ip, now: real, n: nat)
    ensures Ordered(Bursts(ip, now, false, n))
    ensures Admitted(Bursts(ip, now, false, n), ip, 0, n) <= 20 * (1 + Ceil(1.0)) <==> n < 0x1_0000_0000 + 20
  {
    hide Admitted, Ordered;
    BurstsOrdered(ip, now, false, n);
    BurstAdmitted(ip, now, false, n, n);
  }

  lemma SameTurn(j: nat, k: nat)
    requires j <= k
    ensures k % WRAP <= k && (j / WRAP == k / WRAP <==> k - k % WRAP <= j) && j / WRAP <= k / WRAP
  {
  }

  /** In bursts a second apart a request's recent ones are the earlier ones of its own burst. */
  lemma {:induction false} RecentInBurst<Ip>(ip: Ip, now: real, n: nat, j: nat, k: nat)
    requires j <= k < n
    ensures var from := k - k % WRAP;
            Recent(Bursts(ip, now, true, n), j, ip, BurstTime(now, true, k)) == if j <= from then 0 else j - from
  {
    hide Bursts;
    if j > 0 {
      RecentInBurst(ip, now, n, j - 1, k);
      SameTurn(j - 1, k);
    }
  }

  lemma BurstsSparse<Ip>(ip: Ip, n: int)
    requires WRAP <= n
    ensures var qs := Bursts(ip, 0.0, true, 21 * WRAP); Ordered(qs) && Sparse(qs, ip, 0, |qs|, n)
  {
    hide Bursts, BurstTime, Ordered, Recent;
    var qs := Bursts(ip, 0.0, true, 21 * WRAP);
    BurstsOrdered(ip, 0.0, true, 21 * WRAP);
    forall j | 0 <= j < |qs| ensures Recent(qs, j, ip, qs[j].now) < n {
      RecentInBurst(ip, 0.0, |qs|, j, j);
    }
  }

  /** 21 bursts a second apart: 441 requests are admitted within 20.5 seconds, one more than the bound allows. */
  lemma BurstsExceed<Ip>(ip: Ip)
    ensures var qs := Bursts(ip, 0.0, true, 21 * 0x1_0000_0000);
            Spans(qs, 0, |qs|, 20.5) && Admitted(qs, ip, 0, |qs|) == 441 && 20 * (1 + Ceil(20.5)) == 440
  {
    hide Bursts, Admitted;
    BurstAdmitted(ip, 0.0, true, 21 * WRAP, 21 * WRAP);
    assert (21 * WRAP - 1) / WRAP == 20;
  }

  // ----- refusals are earned -----

  /** A request is refused only if its client made 20 requests in the last second. */
  lemma RefusedOnlyWhenBusy<Ip>(qs: seq<Request<Ip>>, k: nat)
    requires k < |qs| && Ordered(qs) && !Allowed(qs, k)
    ensures 20 <= Recent(qs, k, qs[k].ip, qs[k].now)
  {
    hide LedgerAt, Noted, Since, Recent, Allowed;
    var ip, m := qs[k].ip, LedgerAt(qs, k);
    PruningUnobservable(qs, k);
    CountIsReal(qs, k, ip);
    Refuses(m, ip, qs[k].now);
    SinceRecent(qs, k, ip, m[ip].start, qs[k].now);
  }

  lemma Refuses<Ip>(m: Table<Ip>, ip: Ip, now: real)
    requires !Noted(m, ip, now).1
    ensures ip in m && now - m[ip].start < 1.0 && m[ip].count >= 20
  {
  }

  // ----- memory -----

  /** After a request there are at most 100001 clients, or all but the client's own window began within the last 60
      s. */
  lemma TableBounded<Ip>(m: Table<Ip>, ip: Ip, now: real)
    ensures |m| <= 100_000 ==>
              var m' := Served(m, ip, now).0;
              forall other :: other != ip ==> (other in m' <==> other in m) && (other in m ==> m'[other] == m[other])
    ensures var m' := Served(m, ip, now).0;
            |m'| <= 100_001 || forall other :: other in m' && other != ip ==> now - m'[other].start < 60.0
  {
    if |m| <= 100_000 {
      var w := Counted(Opened(m, ip, now));
      assert m[ip := w].Keys == m.Keys + {ip};
    }
  }
}
