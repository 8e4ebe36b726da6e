/** The union-find structure behind duplicate grouping. */
module UnionFind {
  import opened Forest

  class UnionFind {
    var parent: seq<nat>
    var rank: seq<nat>

    ghost predicate Valid()
      reads this
    {
      Sound(parent, rank)
    }

    /** The root of every node. */
    ghost function Rep(): (s: seq<nat>)
      requires Valid()
      reads this
      ensures |s| == |parent|
    {
      Roots(parent, rank)
    }

    constructor (n: nat)
      ensures Valid() && |parent| == n
      ensures Rep() == seq(n, i => i)
    {
      parent := seq(n, i => i);
      rank := seq(n, _ => 0);
      new;
      FreshSound(parent, rank);
    }

    /** Path halving: the root of `x` is returned, no root changes, and with `n` nodes at most `log2(n)` links are
        passed, two at a time. */
    method Find(node: nat) returns (r: nat, ghost turns: nat)
      requires Valid() && node < |parent|
      modifies this`parent
      ensures Valid() && |parent| == old(|parent|)
      ensures Rep() == old(Rep()) && r == Rep()[node]
      ensures 2 * turns <= old(Depth(parent, rank, node)) + 1
      ensures old(Pow2(Depth(parent, rank, node))) <= |parent|
    {
      hide Root, Depth, Max, Roots, Populous;
      DepthLogarithmic(parent, rank, node);
      var x: nat := node;
      turns := 0;
      while parent[x] != x
        invariant Valid() && x < |parent| && |parent| == old(|parent|)
        invariant Rep() == old(Rep()) && Root(parent, rank, x) == old(Root(parent, rank, node))
        invariant 2 * turns + Depth(parent, rank, x) <= old(Depth(parent, rank, node)) + if parent[x] == x then 1 else 0
        decreases Max(rank) - rank[x]
      {
        HalvingTurn(parent, rank, x);
        parent := parent[x := parent[parent[x]]];
        x := parent[x];
        turns := turns + 1;
      }
      AtRoot(parent, rank, x);
      r := x;
    }

    /** Union by rank: exactly the classes of `x` and `y` become one. */
    method Union(x: nat, y: nat)
      requires Valid() && x < |parent| && y < |parent|
      modifies this
      ensures Valid() && |parent| == old(|parent|)
      ensures Joined(old(Rep()), Rep(), x, y)
    {
      hide Sound, Roots, Joined, Depth, Ranked, Populous;
      var rx, _ := Find(x);
      var ry, _ := Find(y);
      LinkByRank(parent, rank, x, y);
      if rx == ry {
        return;
      }
      if rank[rx] < rank[ry] {
        parent := parent[rx := ry];
      } else if rank[rx] > rank[ry] {
        parent := parent[ry := rx];
      } else {
        parent := parent[ry := rx];
        rank := rank[rx := rank[rx] + 1];
      }
    }
  }
}
