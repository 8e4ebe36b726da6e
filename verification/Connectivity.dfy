/** Similarity pairs as a graph: reachability, and how one more pair changes it. */
module Connectivity {
  /** Two image hashes and how similar the images are. */
  datatype Pair = Pair(a: string, b: string, sim: real)

  /** Some pair names `h` and `k`, in either order. */
  ghost predicate Linked(pairs: seq<Pair>, h: string, k: string) {
    exists i :: 0 <= i < |pairs| && ((pairs[i].a == h && pairs[i].b == k) || (pairs[i].a == k && pairs[i].b == h))
  }

  /** `k` is reached from `h` over `n` pairs. */
  ghost predicate Reach(pairs: seq<Pair>, h: string, k: string, n: nat)
    decreases n
  {
    if n == 0 then h == k else exists m :: Reach(pairs, h, m, n - 1) && Linked(pairs, m, k)
  }

  /** The reflexive, symmetric and transitive closure of the pairs. */
  ghost predicate Connected(pairs: seq<Pair>, h: string, k: string) {
    exists n: nat :: Reach(pairs, h, k, n)
  }

  lemma Reflexive(pairs: seq<Pair>, h: string)
    ensures Connected(pairs, h, h)
  {
    assert Reach(pairs, h, h, 0);
  }

  lemma LinkedConnected(pairs: seq<Pair>, h: string, k: string)
    requires Linked(pairs, h, k)
    ensures Connected(pairs, h, k)
  {
    assert Reach(pairs, h, h, 0);
    assert Reach(pairs, h, k, 1);
  }

  lemma {:induction false} ReachJoin(pairs: seq<Pair>, h: string, m: string, k: string, i: nat, j: nat)
    requires Reach(pairs, h, m, i) && Reach(pairs, m, k, j)
    ensures Reach(pairs, h, k, i + j)
    decreases j
  {
    if j > 0 {
      var l :| Reach(pairs, m, l, j - 1) && Linked(pairs, l, k);
      ReachJoin(pairs, h, m, l, i, j - 1);
    }
  }

  lemma Transitive(pairs: seq<Pair>, h: string, m: string, k: string)
    requires Connected(pairs, h, m) && Connected(pairs, m, k)
    ensures Connected(pairs, h, k)
  {
    var i: nat :| Reach(pairs, h, m, i);
    var j: nat :| Reach(pairs, m, k, j);
    ReachJoin(pairs, h, m, k, i, j);
  }

  lemma LinkedBack(pairs: seq<Pair>, h: string, k: string)
    requires Linked(pairs, h, k)
    ensures Linked(pairs, k, h)
  {
    var i :| 0 <= i < |pairs| && ((pairs[i].a == h && pairs[i].b == k) || (pairs[i].a == k && pairs[i].b == h));
  }

  lemma {:induction false} ReachBack(pairs: seq<Pair>, h: string, k: string, n: nat)
    requires Reach(pairs, h, k, n)
    ensures Reach(pairs, k, h, n)
    decreases n
  {
    if n > 0 {
      var m :| Reach(pairs, h, m, n - 1) && Linked(pairs, m, k);
      ReachBack(pairs, h, m, n - 1);
      LinkedBack(pairs, m, k);
      assert Reach(pairs, k, k, 0);
      assert Reach(pairs, k, m, 1);
      ReachJoin(pairs, k, m, h, 1, n - 1);
    }
  }

  lemma Symmetric(pairs: seq<Pair>, h: string, k: string)
    requires Connected(pairs, h, k)
    ensures Connected(pairs, k, h)
  {
    var n: nat :| Reach(pairs, h, k, n);
    ReachBack(pairs, h, k, n);
  }

  lemma {:induction false} ReachGrows(pairs: seq<Pair>, p: Pair, h: string, k: string, n: nat)
    requires Reach(pairs, h, k, n)
    ensures Reach(pairs + [p], h, k, n)
    decreases n
  {
    if n > 0 {
      var m :| Reach(pairs, h, m, n - 1) && Linked(pairs, m, k);
      ReachGrows(pairs, p, h, m, n - 1);
      LinkedGrows(pairs, p, m, k);
    }
  }

  lemma LinkedGrows(pairs: seq<Pair>, p: Pair, h: string, k: string)
    ensures Linked(pairs + [p], h, k) <==> Linked(pairs, h, k) || (p.a == h && p.b == k) || (p.a == k && p.b == h)
  {
    var more := pairs + [p];
    if Linked(pairs, h, k) {
      var i :| 0 <= i < |pairs| && ((pairs[i].a == h && pairs[i].b == k) || (pairs[i].a == k && pairs[i].b == h));
      assert more[i] == pairs[i];
    }
    assert more[|pairs|] == p;
  }

  /** How `h` and `k` may be connected once the pair `p` is there as well. */
  ghost predicate Bridged(pairs: seq<Pair>, p: Pair, h: string, k: string) {
    || Connected(pairs, h, k)
    || (Connected(pairs, h, p.a) && Connected(pairs, p.b, k))
    || (Connected(pairs, h, p.b) && Connected(pairs, p.a, k))
  }

  lemma {:induction false} ReachBridged(pairs: seq<Pair>, p: Pair, h: string, k: string, n: nat)
    requires Reach(pairs + [p], h, k, n)
    ensures Bridged(pairs, p, h, k)
    decreases n
  {
    if n == 0 {
      Reflexive(pairs, h);
    } else {
      var m :| Reach(pairs + [p], h, m, n - 1) && Linked(pairs + [p], m, k);
      ReachBridged(pairs, p, h, m, n - 1);
      LinkedGrows(pairs, p, m, k);
      BridgedStep(pairs, p, h, m, k);
    }
  }

  lemma BridgedStep(pairs: seq<Pair>, p: Pair, h: string, m: string, k: string)
    requires Bridged(pairs, p, h, m)
    requires Linked(pairs, m, k) || (p.a == m && p.b == k) || (p.a == k && p.b == m)
    ensures Bridged(pairs, p, h, k)
  {
    hide Connected, Linked;
    if Linked(pairs, m, k) {
      LinkedConnected(pairs, m, k);
      if Connected(pairs, h, m) {
        Transitive(pairs, h, m, k);
      } else if Connected(pairs, p.b, m) && Connected(pairs, h, p.a) {
        Transitive(pairs, p.b, m, k);
      } else {
        Transitive(pairs, p.a, m, k);
      }
    } else {
      Reflexive(pairs, k);
    }
  }

  /** Adding a pair connects exactly what the pair bridges. */
  lemma OneMorePair(pairs: seq<Pair>, p: Pair, h: string, k: string)
    ensures Connected(pairs + [p], h, k) <==> Bridged(pairs, p, h, k)
  {
    hide Linked, Reach;
    if Connected(pairs + [p], h, k) {
      var n: nat :| Reach(pairs + [p], h, k, n);
      ReachBridged(pairs, p, h, k, n);
    }
    if Connected(pairs, h, k) {
      ConnectedGrows(pairs, p, h, k);
    } else if Bridged(pairs, p, h, k) {
      LinkedGrows(pairs, p, p.a, p.b);
      LinkedGrows(pairs, p, p.b, p.a);
      var near := if Connected(pairs, h, p.a) && Connected(pairs, p.b, k) then p.a else p.b;
      var far := if Connected(pairs, h, p.a) && Connected(pairs, p.b, k) then p.b else p.a;
      ConnectedGrows(pairs, p, h, near);
      LinkedConnected(pairs + [p], near, far);
      ConnectedGrows(pairs, p, far, k);
      Transitive(pairs + [p], h, near, far);
      Transitive(pairs + [p], h, far, k);
    }
  }

  lemma ConnectedGrows(pairs: seq<Pair>, p: Pair, h: string, k: string)
    requires Connected(pairs, h, k)
    ensures Connected(pairs + [p], h, k)
  {
    var n: nat :| Reach(pairs, h, k, n);
    ReachGrows(pairs, p, h, k, n);
  }

  lemma NoPairs(h: string, k: string)
    ensures Connected([], h, k) <==> h == k
  {
    if Connected([], h, k) {
      var n: nat :| Reach([], h, k, n);
    }
    Reflexive([], h);
  }
}
