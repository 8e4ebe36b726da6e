/** The per-account login lockout. Keys are usernames after trimming and lower-casing. */
module Lockout {
  const THRESHOLD: nat := 8

  type Store = map<string, seq<real>>

  /** The failures younger than 900 s, in order. */
  function Young(failures: seq<real>, now: real): (r: seq<real>)
    ensures forall t :: t in r ==> t in failures && now - t < 900.0
  {
    if failures == [] then []
    else
      var rest := Young(failures[..|failures| - 1], now);
      var t := failures[|failures| - 1];
      if now - t < 900.0 then rest + [t] else rest
  }

  function Get(store: Store, key: string): seq<real> {
    if key in store then store[key] else []
  }

  /** Dropping expired failures of every account, and accounts without failures. */
  function Swept(store: Store, now: real): Store {
    map k | k in store && Young(store[k], now) != [] :: Young(store[k], now)
  }

  function DropEmpty(store: Store): Store {
    map k | k in store && store[k] != [] :: store[k]
  }

  class LoginFailures {
    var store: Store

    constructor ()
      ensures store == map[]
    {
      store := map[];
    }

    /** `login_allowed_for_account`. */
    method Allowed(key: string, now: real) returns (allowed: bool)
      modifies this
      ensures allowed == Answer(old(store), key, now)
      ensures store == Applied(old(store), Check(key, now))
    {
      if key == "" {
        return false;
      }
      if key in store {
        store := store[key := Young(store[key], now)];
        allowed := |store[key]| < THRESHOLD;
      } else {
        allowed := true;
      }
      if |store| > 500 {
        store := Swept(store, now);
      }
    }

    /** `record_login_failure`. */
    method RecordFailure(key: string, now: real)
      modifies this
      ensures store == Applied(old(store), Fail(key, now))
    {
      if key == "" {
        return;
      }
      var failures := if key in store then store[key] else [];
      failures := failures + [now];
      store := store[key := Young(failures, now)];
      store := DropEmpty(store);
    }

    /** `clear_login_failures`. */
    method ClearFailures(key: string)
      modifies this
      ensures store == Applied(old(store), Clear(key))
    {
      if key == "" {
        return;
      }
      store := store - {key};
    }
  }

  // ----- traces -----

  datatype Event = Check(key: string, now: real) | Fail(key: string, now: real) | Clear(key: string)

  function Answer(store: Store, key: string, now: real): bool {
    key != "" && |Young(Get(store, key), now)| < THRESHOLD
  }

  function Applied(store: Store, e: Event): Store {
    if e.key == "" then store
    else
      match e
      case Check(key, now) =>
        var trimmed := if key in store then store[key := Young(store[key], now)] else store;
        if |trimmed| > 500 then Swept(trimmed, now) else trimmed
      case Fail(key, now) => DropEmpty(store[key := Young(Get(store, key) + [now], now)])
      case Clear(key) => store - {key}
  }

  function StoreAfter(events: seq<Event>, k: nat): Store
    requires k <= |events|
  {
    if k == 0 then map[] else Applied(StoreAfter(events, k - 1), events[k - 1])
  }

  /** Clock readings never go back. */
  ghost predicate Monotone(events: seq<Event>) {
    forall i, j :: 0 <= i <= j < |events| && !events[i].Clear? && !events[j].Clear? ==> events[i].now <= events[j].now
  }

  /** All failures of `key` since it was last cleared, according to the full history. */
  ghost function Failures(events: seq<Event>, k: nat, key: string): seq<real>
    requires k <= |events|
  {
    if k == 0 then []
    else
      match events[k - 1]
      case Fail(who, t) => if who == key then Failures(events, k - 1, key) + [t] else Failures(events, k - 1, key)
      case Clear(who) => if who == key then [] else Failures(events, k - 1, key)
      case Check(_, _) => Failures(events, k - 1, key)
  }

  /** The two lists give the same answers from `now` on. */
  ghost predicate SameFrom(a: seq<real>, b: seq<real>, now: real) {
    forall t :: now <= t ==> Young(a, t) == Young(b, t)
  }

  lemma {:induction false} YoungYoung(failures: seq<real>, now: real, later: real)
    requires now <= later
    ensures Young(Young(failures, now), later) == Young(failures, later)
  {
    if failures != [] {
      var front, t := failures[..|failures| - 1], failures[|failures| - 1];
      YoungYoung(front, now, later);
      if now - t < 900.0 {
        assert (Young(front, now) + [t])[..|Young(front, now)|] == Young(front, now);
      }
    }
  }

  lemma YoungAppend(failures: seq<real>, t: real, now: real)
    ensures Young(failures + [t], now) == Young(failures, now) + if now - t < 900.0 then [t] else []
  {
    assert (failures + [t])[..|failures|] == failures;
  }

  lemma TrimmedSame(failures: seq<real>, now: real)
    ensures SameFrom(Young(failures, now), failures, now)
  {
    forall t | now <= t ensures Young(Young(failures, now), t) == Young(failures, t) {
      YoungYoung(failures, now, t);
    }
  }

  /** A sweep changes no list as far as answers from now on are concerned. */
  lemma SweptSame(store: Store, now: real, key: string)
    ensures SameFrom(Get(Swept(store, now), key), Get(store, key), now)
  {
    TrimmedSame(Get(store, key), now);
    if key in store && Young(store[key], now) == [] {
      assert Get(Swept(store, now), key) == Young(store[key], now);
    }
  }

  /** After every prefix of a trace, store and history give the same answers about `key`, now and later. */
  ghost predicate Faithful(events: seq<Event>, k: nat, key: string, now: real)
    requires k <= |events|
  {
    SameFrom(Get(StoreAfter(events, k), key), Failures(events, k, key), now)
  }

  lemma ApplySame(store: Store, e: Event, key: string, now: real, all: seq<real>)
    requires key != "" && SameFrom(Get(store, key), all, now) && (!e.Clear? ==> now <= e.now)
    ensures var all' := if e.key != key || e.Check? then all else if e.Fail? then all + [e.now] else [];
            SameFrom(Get(Applied(store, e), key), all', if e.Clear? then now else e.now)
  {
    hide Young, SameFrom, Swept, DropEmpty;
    match e
    case Check(who, t) =>
      CheckSame(store, who, t, key, now, all);
    case Fail(who, t) =>
      if who == key {
        FailSame(Get(store, key), all, now, t);
      } else {
        SameLater(Get(store, key), all, now, t);
      }
      if who != "" {
        DropEmptySame(store[who := Young(Get(store, who) + [t], t)], key);
      }
    case Clear(who) =>
      SameList([], now);
  }

  lemma DropEmptySame(store: Store, key: string)
    ensures Get(DropEmpty(store), key) == Get(store, key)
  {
  }

  lemma CheckSame(store: Store, who: string, t: real, key: string, now: real, all: seq<real>)
    requires SameFrom(Get(store, key), all, now) && now <= t
    ensures SameFrom(Get(Applied(store, Check(who, t)), key), all, t)
  {
    hide Young, Swept;
    var trimmed := if who in store then store[who := Young(store[who], t)] else store;
    TrimmedSame(Get(store, key), t);
    SweptSame(trimmed, t, key);
  }

  lemma FailSame(list: seq<real>, all: seq<real>, now: real, t: real)
    requires SameFrom(list, all, now) && now <= t
    ensures SameFrom(Young(list + [t], t), all + [t], t)
  {
    forall later | t <= later ensures Young(Young(list + [t], t), later) == Young(all + [t], later) {
      YoungYoung(list + [t], t, later);
      YoungAppend(list, t, later);
      YoungAppend(all, t, later);
    }
  }

  lemma {:induction false} StoreFaithful(events: seq<Event>, k: nat, key: string, now: real)
    requires k <= |events| && Monotone(events) && key != ""
    requires forall i :: 0 <= i < k && !events[i].Clear? ==> events[i].now <= now
    ensures Faithful(events, k, key, now)
  {
    hide Applied, SameFrom, Young;
    if k > 0 {
      var e := events[k - 1];
      var before := if e.Clear? then now else e.now;
      StoreFaithful(events, k - 1, key, before);
      ApplySame(StoreAfter(events, k - 1), e, key, before, Failures(events, k - 1, key));
      SameLater(Get(StoreAfter(events, k), key), Failures(events, k, key), before, now);
    } else {
      SameList([], now);
    }
  }

  lemma SameLater(a: seq<real>, b: seq<real>, now: real, later: real)
    requires SameFrom(a, b, now) && now <= later
    ensures SameFrom(a, b, later)
  {
  }

  lemma SameList(a: seq<real>, now: real)
    ensures SameFrom(a, a, now)
  {
  }

  /** How many failures of `key` since its last clear are younger than 900 s, counted in the full history. */
  ghost function RecentFailures(events: seq<Event>, k: nat, key: string, now: real): nat
    requires k <= |events|
  {
    if k == 0 then 0
    else
      match events[k - 1]
      case Fail(who, t) => RecentFailures(events, k - 1, key, now) + if who == key && now - t < 900.0 then 1 else 0
      case Clear(who) => if who == key then 0 else RecentFailures(events, k - 1, key, now)
      case Check(_, _) => RecentFailures(events, k - 1, key, now)
  }

  lemma {:induction false} YoungCounts(events: seq<Event>, k: nat, key: string, now: real)
    requires k <= |events|
    ensures |Young(Failures(events, k, key), now)| == RecentFailures(events, k, key, now)
  {
    if k > 0 {
      YoungCounts(events, k - 1, key, now);
      if events[k - 1].Fail? {
        YoungAppend(Failures(events, k - 1, key), events[k - 1].now, now);
      }
    }
  }

  /** On every trace, login is allowed exactly when fewer than 8 failures since the last clear are younger than 900 s in
      the full history; trimming, sweeping and dropping empty accounts never change an answer. */
  lemma LockoutExact(events: seq<Event>, k: nat)
    requires k < |events| && Monotone(events) && events[k].Check?
    ensures Answer(StoreAfter(events, k), events[k].key, events[k].now)
       <==> events[k].key != "" && RecentFailures(events, k, events[k].key, events[k].now) < 8
  {
    if events[k].key != "" {
      StoreFaithful(events, k, events[k].key, events[k].now);
      YoungCounts(events, k, events[k].key, events[k].now);
    }
  }

  // ----- memory -----

  /** After a check there are at most 500 accounts, or each has a failure younger than 900 s and no older one; up to 500
      accounts the others are left alone. */
  lemma StoreBounded(store: Store, key: string, now: real)
    requires key != ""
    ensures var store' := Applied(store, Check(key, now));
            |store'| <= 500 ||
            forall k :: k in store' ==> store'[k] != [] && forall t :: t in store'[k] ==> now - t < 900.0
    ensures |store| <= 500 ==>
              var store' := Applied(store, Check(key, now));
              forall k :: k != key ==> (k in store' <==> k in store) && (k in store ==> store'[k] == store[k])
  {
    if key in store {
      assert store[key := Young(store[key], now)].Keys == store.Keys;
    }
  }

  /** After a failure no account is without one, and the account's own are all younger than 900 s. */
  lemma StoreTidy(store: Store, key: string, now: real)
    requires key != ""
    ensures var store' := Applied(store, Fail(key, now));
            (forall k :: k in store' ==> store'[k] != [])
            && key in store' && forall t :: t in store'[key] ==> now - t < 900.0
  {
    YoungAppend(Get(store, key), now, now);
  }
}
