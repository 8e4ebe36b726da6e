/** Parent-and-rank forests: what path halving and union by rank do to them. */
module Forest {
  import opened FiniteSets

  ghost function Max(s: seq<nat>): (m: nat)
    ensures forall i :: 0 <= i < |s| ==> s[i] <= m
  {
    if s == [] then 0
    else
      var rest := Max(s[1..]);
      assert forall i :: 1 <= i < |s| ==> s[i] == s[1..][i - 1];
      if s[0] > rest then s[0] else rest
  }

  /** Every node has a parent in range, and ranks strictly increase along parent links. */
  ghost predicate Ranked(parent: seq<nat>, rank: seq<nat>) {
    && |parent| == |rank|
    && (forall i :: 0 <= i < |parent| ==> parent[i] < |parent|)
    && (forall i :: 0 <= i < |parent| && parent[i] != i ==> rank[i] < rank[parent[i]])
  }

  /** The root reached from `x`. */
  ghost function Root(parent: seq<nat>, rank: seq<nat>, x: nat): (r: nat)
    requires Ranked(parent, rank) && x < |parent|
    ensures r < |parent| && parent[r] == r && rank[x] <= rank[r]
    decreases Max(rank) - rank[x]
  {
    if parent[x] == x then x else Root(parent, rank, parent[x])
  }

  /** The number of parent links from `x` to its root. */
  ghost function Depth(parent: seq<nat>, rank: seq<nat>, x: nat): nat
    requires Ranked(parent, rank) && x < |parent|
    decreases Max(rank) - rank[x]
  {
    if parent[x] == x then 0 else 1 + Depth(parent, rank, parent[x])
  }

  ghost function Class(parent: seq<nat>, rank: seq<nat>, r: nat): set<nat>
    requires Ranked(parent, rank)
  {
    set i | 0 <= i < |parent| && Root(parent, rank, i) == r
  }

  ghost function Pow2(k: nat): (p: nat)
    ensures p > 0
  {
    if k == 0 then 1 else 2 * Pow2(k - 1)
  }

  /** A root of rank `k` stands for at least `2^k` nodes. */
  ghost predicate Populous(parent: seq<nat>, rank: seq<nat>)
    requires Ranked(parent, rank)
  {
    forall r :: 0 <= r < |parent| && parent[r] == r ==> Pow2(rank[r]) <= |Class(parent, rank, r)|
  }

  ghost predicate Sound(parent: seq<nat>, rank: seq<nat>) {
    Ranked(parent, rank) && Populous(parent, rank)
  }

  // ----- depth -----

  lemma {:induction false} DepthBelowRank(parent: seq<nat>, rank: seq<nat>, x: nat)
    requires Ranked(parent, rank) && x < |parent|
    ensures rank[x] + Depth(parent, rank, x) <= rank[Root(parent, rank, x)]
    decreases Max(rank) - rank[x]
  {
    if parent[x] != x {
      DepthBelowRank(parent, rank, parent[x]);
    }
  }

  lemma Pow2Doubles(k: nat)
    ensures Pow2(0) == 1 && Pow2(k + 1) == Pow2(k) + Pow2(k) && Pow2(10) == 1024
  {
    assert Pow2(5) == 32;
  }

  lemma {:induction false} Pow2Monotone(a: nat, b: nat)
    requires a <= b
    ensures Pow2(a) <= Pow2(b)
    decreases b
  {
    if a < b {
      Pow2Monotone(a, b - 1);
    }
  }

  /** No node is more than `log2(n)` links away from its root. */
  lemma DepthLogarithmic(parent: seq<nat>, rank: seq<nat>, x: nat)
    requires Sound(parent, rank) && x < |parent|
    ensures Pow2(Depth(parent, rank, x)) <= |parent|
  {
    var r := Root(parent, rank, x);
    DepthBelowRank(parent, rank, x);
    Pow2Monotone(Depth(parent, rank, x), rank[r]);
    SizeBelow(Class(parent, rank, r), |parent|);
  }

  // ----- a fresh forest -----

  lemma FreshSound(parent: seq<nat>, rank: seq<nat>)
    requires |parent| == |rank| && (forall i :: 0 <= i < |parent| ==> parent[i] == i && rank[i] == 0)
    ensures Sound(parent, rank)
    ensures forall i :: 0 <= i < |parent| ==> Root(parent, rank, i) == i
  {
    forall r | 0 <= r < |parent| ensures Pow2(rank[r]) <= |Class(parent, rank, r)| {
      assert Class(parent, rank, r) == {r};
    }
  }

  // ----- path halving -----

  /** Pointing a node at its grandparent changes no root. */
  lemma {:induction false} HalvingKeepsRoot(parent: seq<nat>, rank: seq<nat>, x: nat, i: nat)
    requires Ranked(parent, rank) && x < |parent| && i < |parent|
    ensures Ranked(parent[x := parent[parent[x]]], rank)
    ensures Root(parent[x := parent[parent[x]]], rank, i) == Root(parent, rank, i)
    decreases Max(rank) - rank[i]
  {
    if parent[i] != i {
      if i == x {
        if parent[parent[i]] != i {
          HalvingKeepsRoot(parent, rank, x, parent[parent[i]]);
        }
      } else {
        HalvingKeepsRoot(parent, rank, x, parent[i]);
      }
    }
  }

  lemma HalvingKeepsAll(parent: seq<nat>, rank: seq<nat>, x: nat)
    requires Sound(parent, rank) && x < |parent|
    ensures Sound(parent[x := parent[parent[x]]], rank)
    ensures forall i :: 0 <= i < |parent| ==> Root(parent[x := parent[parent[x]]], rank, i) == Root(parent, rank, i)
  {
    var halved := parent[x := parent[parent[x]]];
    forall i | 0 <= i < |parent|
      ensures Ranked(halved, rank) && Root(halved, rank, i) == Root(parent, rank, i)
    {
      HalvingKeepsRoot(parent, rank, x, i);
    }
    forall r | 0 <= r < |halved| && halved[r] == r ensures Pow2(rank[r]) <= |Class(halved, rank, r)| {
      assert Class(halved, rank, r) == Class(parent, rank, r);
    }
  }

  /** A step to the grandparent leaves the nodes above untouched. */
  lemma {:induction false} HalvingKeepsDepthAbove(parent: seq<nat>, rank: seq<nat>, x: nat, i: nat)
    requires Ranked(parent, rank) && x < |parent| && i < |parent| && rank[x] < rank[i]
    ensures Ranked(parent[x := parent[parent[x]]], rank)
    ensures Depth(parent[x := parent[parent[x]]], rank, i) == Depth(parent, rank, i)
    decreases Max(rank) - rank[i]
  {
    HalvingKeepsRoot(parent, rank, x, i);
    if parent[i] != i {
      HalvingKeepsDepthAbove(parent, rank, x, parent[i]);
    }
  }

  // ----- linking -----

  /** What hanging root `lo` below root `hi` means: `rank'` differs from `rank` at most in a raised rank of `hi`. */
  ghost predicate Linkable(parent: seq<nat>, rank: seq<nat>, rank': seq<nat>, lo: nat, hi: nat) {
    && Ranked(parent, rank) && lo < |parent| && hi < |parent| && lo != hi
    && parent[lo] == lo && parent[hi] == hi
    && ((rank' == rank && rank[lo] < rank[hi]) || (rank' == rank[hi := rank[hi] + 1] && rank[lo] == rank[hi]))
  }

  lemma {:induction false} LinkMovesRoot(parent: seq<nat>, rank: seq<nat>, rank': seq<nat>, lo: nat, hi: nat, i: nat)
    requires Linkable(parent, rank, rank', lo, hi) && i < |parent|
    ensures Ranked(parent[lo := hi], rank')
    ensures Root(parent[lo := hi], rank', i) == if Root(parent, rank, i) == lo then hi else Root(parent, rank, i)
    decreases Max(rank) - rank[i]
  {
    if parent[i] != i {
      LinkMovesRoot(parent, rank, rank', lo, hi, parent[i]);
    }
  }

  /** The root of `i` after hanging `lo` below `hi`. */
  ghost function Rerooted(lo: nat, hi: nat, root: nat): nat {
    if root == lo then hi else root
  }

  lemma LinkMovesRoots(parent: seq<nat>, rank: seq<nat>, rank': seq<nat>, lo: nat, hi: nat)
    requires Linkable(parent, rank, rank', lo, hi)
    ensures Ranked(parent[lo := hi], rank')
    ensures forall i :: 0 <= i < |parent| ==>
      Root(parent[lo := hi], rank', i) == Rerooted(lo, hi, Root(parent, rank, i))
  {
    hide Root, Max;
    LinkMovesRoot(parent, rank, rank', lo, hi, lo);
    forall i | 0 <= i < |parent| ensures Root(parent[lo := hi], rank', i) == Rerooted(lo, hi, Root(parent, rank, i)) {
      LinkMovesRoot(parent, rank, rank', lo, hi, i);
    }
  }

  lemma LinkedClass(parent: seq<nat>, rank: seq<nat>, rank': seq<nat>, lo: nat, hi: nat, r: nat)
    requires Linkable(parent, rank, rank', lo, hi) && r < |parent| && r != lo
    ensures Ranked(parent[lo := hi], rank')
    ensures Class(parent[lo := hi], rank', r)
         == Class(parent, rank, r) + if r == hi then Class(parent, rank, lo) else {}
  {
    hide Root, Max;
    LinkMovesRoots(parent, rank, rank', lo, hi);
    var linked := parent[lo := hi];
    var a, b := Class(linked, rank', r), Class(parent, rank, r) + if r == hi then Class(parent, rank, lo) else {};
    forall i: nat ensures i in a <==> i in b {
      if i < |parent| {
        assert Root(linked, rank', i) == Rerooted(lo, hi, Root(parent, rank, i));
      }
    }
  }

  /** Linking merges the two classes and keeps the size bound. */
  lemma LinkMerges(parent: seq<nat>, rank: seq<nat>, rank': seq<nat>, lo: nat, hi: nat)
    requires Linkable(parent, rank, rank', lo, hi) && Populous(parent, rank)
    ensures Sound(parent[lo := hi], rank')
    ensures forall i :: 0 <= i < |parent| ==>
      Root(parent[lo := hi], rank', i) == Rerooted(lo, hi, Root(parent, rank, i))
  {
    hide Root, Max, Class, Rerooted;
    LinkMovesRoots(parent, rank, rank', lo, hi);
    var linked := parent[lo := hi];
    forall r | 0 <= r < |linked| && linked[r] == r ensures Pow2(rank'[r]) <= |Class(linked, rank', r)| {
      LinkedClass(parent, rank, rank', lo, hi, r);
      assert Pow2(rank[r]) <= |Class(parent, rank, r)|;
      if r == hi {
        assert Pow2(rank[lo]) <= |Class(parent, rank, lo)|;
        ClassesDisjoint(parent, rank, lo, hi);
        assert |Class(linked, rank', hi)| == |Class(parent, rank, hi)| + |Class(parent, rank, lo)|;
      }
    }
  }

  lemma ClassesDisjoint(parent: seq<nat>, rank: seq<nat>, r: nat, q: nat)
    requires Ranked(parent, rank) && r != q
    ensures Class(parent, rank, r) !! Class(parent, rank, q)
  {
  }

  /** `merged` relates nodes exactly as `roots` does, except that the classes of `x` and `y` have become one. */
  ghost predicate Joined(roots: seq<nat>, merged: seq<nat>, x: nat, y: nat)
    requires x < |roots| && y < |roots|
  {
    && |merged| == |roots|
    && forall i, j :: 0 <= i < |roots| && 0 <= j < |roots| ==>
         (merged[i] == merged[j] <==>
            || roots[i] == roots[j]
            || (roots[i] == roots[x] && roots[j] == roots[y])
            || (roots[i] == roots[y] && roots[j] == roots[x]))
  }

  ghost function Roots(parent: seq<nat>, rank: seq<nat>): (s: seq<nat>)
    requires Ranked(parent, rank)
    ensures |s| == |parent|
    ensures forall i :: 0 <= i < |s| ==> s[i] == Root(parent, rank, i)
  {
    seq(|parent|, i requires 0 <= i < |parent| => Root(parent, rank, i))
  }

  /** One turn of `find`: roots stay, and two links are passed unless only one was left. */
  lemma HalvingTurn(parent: seq<nat>, rank: seq<nat>, x: nat)
    requires Sound(parent, rank) && x < |parent| && parent[x] != x
    ensures var halved := parent[x := parent[parent[x]]];
            var y := parent[parent[x]];
            && Sound(halved, rank) && Roots(halved, rank) == Roots(parent, rank)
            && rank[x] < rank[y] && Root(halved, rank, y) == Root(parent, rank, x)
            && Depth(halved, rank, y) + (if halved[y] == y then 1 else 2) <= Depth(parent, rank, x)
  {
    hide Max;
    var y := parent[parent[x]];
    HalvingKeepsAll(parent, rank, x);
    HalvingKeepsDepthAbove(parent, rank, x, y);
  }

  /** Linking the roots of `x` and `y`, either way round, joins their classes and nothing else. */
  lemma LinkJoins(parent: seq<nat>, rank: seq<nat>, rank': seq<nat>, lo: nat, hi: nat, x: nat, y: nat)
    requires Linkable(parent, rank, rank', lo, hi) && Populous(parent, rank) && x < |parent| && y < |parent|
    requires {Root(parent, rank, x), Root(parent, rank, y)} == {lo, hi}
    ensures Sound(parent[lo := hi], rank')
    ensures Joined(Roots(parent, rank), Roots(parent[lo := hi], rank'), x, y)
  {
    hide Root, Max, Linkable, Ranked, Populous;
    LinkMerges(parent, rank, rank', lo, hi);
  }

  lemma AtRoot(parent: seq<nat>, rank: seq<nat>, x: nat)
    requires Ranked(parent, rank) && x < |parent| && parent[x] == x
    ensures Root(parent, rank, x) == x
  {
  }

  ghost predicate Unites(parent: seq<nat>, rank: seq<nat>, parent': seq<nat>, rank': seq<nat>, x: nat, y: nat)
    requires Ranked(parent, rank) && x < |parent| && y < |parent|
  {
    Sound(parent', rank') && Joined(Roots(parent, rank), Roots(parent', rank'), x, y)
  }

  /** The three ways `union` may link the roots of `x` and `y`, and the case of equal roots. */
  lemma LinkByRank(parent: seq<nat>, rank: seq<nat>, x: nat, y: nat)
    requires Sound(parent, rank) && x < |parent| && y < |parent|
    ensures |rank| == |parent|
    ensures var rx, ry := Roots(parent, rank)[x], Roots(parent, rank)[y];
            && rx < |parent| && ry < |parent|
            && (rx == ry ==> Unites(parent, rank, parent, rank, x, y))
            && (rank[rx] < rank[ry] ==> Unites(parent, rank, parent[rx := ry], rank, x, y))
            && (rank[rx] > rank[ry] ==> Unites(parent, rank, parent[ry := rx], rank, x, y))
            && (rx != ry && rank[rx] == rank[ry] ==>
                  Unites(parent, rank, parent[ry := rx], rank[rx := rank[rx] + 1], x, y))
  {
    hide Max, Root, Populous, Joined;
    var rx, ry := Root(parent, rank, x), Root(parent, rank, y);
    if rx == ry {
      NothingJoined(Roots(parent, rank), x, y);
    } else if rank[rx] < rank[ry] {
      LinkJoins(parent, rank, rank, rx, ry, x, y);
    } else if rank[rx] > rank[ry] {
      LinkJoins(parent, rank, rank, ry, rx, x, y);
    } else {
      LinkJoins(parent, rank, rank[rx := rank[rx] + 1], ry, rx, x, y);
    }
  }

  lemma NothingJoined(roots: seq<nat>, x: nat, y: nat)
    requires x < |roots| && y < |roots| && roots[x] == roots[y]
    ensures Joined(roots, roots, x, y)
  {
  }
}
