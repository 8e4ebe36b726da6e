/** Rendezvous node selection and round-robin shard placement. */
module Rendezvous {
  /** A storage node with its score for the file at hand: the first eight bytes of a hash of file and node id. */
  datatype Node = Node(id: string, addr: string, score: nat)

  /** How many leading nodes of `s` score at least as much as `n`. */
  function Pos(s: seq<Node>, n: Node): (p: nat)
    ensures p <= |s|
    ensures forall i :: 0 <= i < p ==> s[i].score >= n.score
    ensures p < |s| ==> s[p].score < n.score
  {
    if s == [] || s[0].score < n.score then 0 else 1 + Pos(s[1..], n)
  }

  function Insert(s: seq<Node>, n: Node): seq<Node> {
    var p := Pos(s, n);
    s[..p] + [n] + s[p..]
  }

  /** The nodes by decreasing score; equal scores keep their order. */
  function Ranking(nodes: seq<Node>): (r: seq<Node>)
    ensures |r| == |nodes|
  {
    if nodes == [] then [] else Insert(Ranking(nodes[..|nodes| - 1]), nodes[|nodes| - 1])
  }

  function Take(s: seq<Node>, count: nat): seq<Node> {
    if count <= |s| then s[..count] else s
  }

  /** `rendezvous_select`. */
  function Select(nodes: seq<Node>, count: nat): seq<Node> {
    Take(Ranking(nodes), count)
  }

  // ----- what is selected -----

  ghost predicate Descending(s: seq<Node>) {
    forall i, j :: 0 <= i < j < |s| ==> s[i].score >= s[j].score
  }

  /** Where everything is after an insertion. */
  lemma InsertAt(s: seq<Node>, n: Node)
    ensures Placed(s, n, Pos(s, n), Insert(s, n))
  {
  }

  ghost predicate Placed(s: seq<Node>, n: Node, p: nat, r: seq<Node>) {
    && p <= |s| && |r| == |s| + 1 && r[p] == n
    && (forall i :: 0 <= i < p ==> r[i] == s[i])
    && (forall i :: p < i < |r| ==> r[i] == s[i - 1])
  }

  lemma InsertDescending(s: seq<Node>, n: Node)
    requires Descending(s)
    ensures Descending(Insert(s, n))
  {
    hide Insert;
    InsertAt(s, n);
    var p, r := Pos(s, n), Insert(s, n);
    forall i, j | 0 <= i < j < |r| ensures r[i].score >= r[j].score {
      if i == p && p < j - 1 {
        assert s[p].score >= s[j - 1].score;
      }
    }
  }

  lemma InsertMultiset(s: seq<Node>, n: Node)
    ensures multiset(Insert(s, n)) == multiset(s) + multiset{n}
  {
    var p := Pos(s, n);
    assert s == s[..p] + s[p..];
  }

  lemma {:induction false} RankingSorts(nodes: seq<Node>)
    ensures Descending(Ranking(nodes)) && multiset(Ranking(nodes)) == multiset(nodes)
  {
    hide Insert, Descending;
    if nodes != [] {
      var front, last := nodes[..|nodes| - 1], nodes[|nodes| - 1];
      RankingSorts(front);
      InsertDescending(Ranking(front), last);
      InsertMultiset(Ranking(front), last);
      assert nodes == front + [last];
    } else {
      EmptyDescending();
    }
  }

  lemma EmptyDescending()
    ensures Descending([])
  {
  }

  /** Node `j` comes before node `i`: it scores more, or the same and is listed earlier. */
  predicate Beats(nodes: seq<Node>, j: nat, i: nat)
    requires i < |nodes| && j < |nodes|
  {
    nodes[j].score > nodes[i].score || (nodes[j].score == nodes[i].score && j < i)
  }

  /** How many of the first `k` nodes come before node `i`. */
  function Ahead(nodes: seq<Node>, i: nat, k: nat): nat
    requires i < |nodes| && k <= |nodes|
  {
    if k == 0 then 0 else Ahead(nodes, i, k - 1) + if Beats(nodes, k - 1, i) then 1 else 0
  }

  lemma {:induction false} AheadFront(nodes: seq<Node>, i: nat, k: nat)
    requires i < |nodes| - 1 && k <= |nodes| - 1
    ensures Ahead(nodes[..|nodes| - 1], i, k) == Ahead(nodes, i, k)
  {
    if k > 0 {
      AheadFront(nodes, i, k - 1);
    }
  }

  /** The number of the first `k` nodes that score at least as much as the last node. */
  lemma {:induction false} AheadOfLast(nodes: seq<Node>, k: nat, r: seq<Node>)
    requires |nodes| > 0 && k <= |nodes| - 1 && r == Ranking(nodes[..k])
    ensures Ahead(nodes, |nodes| - 1, k) == Pos(r, nodes[|nodes| - 1])
  {
    hide Insert, Descending, Pos, Placed;
    if k == 0 {
      NoneAhead(nodes[|nodes| - 1]);
    } else {
      var front := nodes[..k - 1];
      assert nodes[..k][..k - 1] == front;
      AheadOfLast(nodes, k - 1, Ranking(front));
      RankingSorts(front);
      PosInsert(Ranking(front), nodes[k - 1], nodes[|nodes| - 1]);
    }
  }

  lemma NoneAhead(n: Node)
    ensures Pos([], n) == 0
  {
  }

  lemma PosUnique(s: seq<Node>, n: Node, p: nat)
    requires Descending(s) && p <= |s|
    requires forall i :: 0 <= i < p ==> s[i].score >= n.score
    requires p < |s| ==> s[p].score < n.score
    ensures Pos(s, n) == p
  {
  }

  lemma PosInsert(s: seq<Node>, m: Node, n: Node)
    requires Descending(s)
    ensures Pos(Insert(s, m), n) == Pos(s, n) + if m.score >= n.score then 1 else 0
  {
    hide Insert, Pos, Descending, Placed;
    InsertAt(s, m);
    InsertDescending(s, m);
    var r, p, q := Insert(s, m), Pos(s, m), Pos(s, n);
    if m.score >= n.score {
      PosOrder(s, m, n);
      PlacedBefore(s, m, p, r, n, q);
    } else {
      PosOrder(s, n, m);
      PlacedBehind(s, m, p, r, n, q);
    }
  }

  /** `q` nodes of `s` score at least as much as `n`, and no more. */
  ghost predicate Splits(s: seq<Node>, n: Node, q: nat) {
    q <= |s| && (forall i :: 0 <= i < q ==> s[i].score >= n.score) && (q < |s| ==> s[q].score < n.score)
  }

  lemma PlacedBefore(s: seq<Node>, m: Node, p: nat, r: seq<Node>, n: Node, q: nat)
    requires Placed(s, m, p, r) && Splits(s, n, q) && p <= q && m.score >= n.score && Descending(r)
    ensures Pos(r, n) == q + 1
  {
    hide Pos, Descending;
    forall i | 0 <= i < q + 1 ensures r[i].score >= n.score {
      assert i < p ==> r[i] == s[i];
      assert i > p ==> r[i] == s[i - 1];
    }
    PosUnique(r, n, q + 1);
  }

  lemma PlacedBehind(s: seq<Node>, m: Node, p: nat, r: seq<Node>, n: Node, q: nat)
    requires Placed(s, m, p, r) && Splits(s, n, q) && q <= p && m.score < n.score && Descending(r)
    ensures Pos(r, n) == q
  {
    hide Pos, Descending;
    forall i | 0 <= i < q ensures r[i].score >= n.score {
      assert r[i] == s[i];
    }
    PosUnique(r, n, q);
  }

  lemma PosOrder(s: seq<Node>, m: Node, n: Node)
    requires m.score >= n.score
    ensures Pos(s, m) <= Pos(s, n)
  {
  }

  /** A node's place in the ranking is the number of nodes that come before it. */
  lemma {:induction false} RankIsAhead(nodes: seq<Node>, i: nat)
    requires i < |nodes|
    ensures Ahead(nodes, i, |nodes|) < |nodes| && Ranking(nodes)[Ahead(nodes, i, |nodes|)] == nodes[i]
    decreases |nodes|
  {
    hide Insert, Pos, Descending;
    var n := |nodes| - 1;
    var front, last := nodes[..n], nodes[n];
    var s := Ranking(front);
    RankingSorts(front);
    InsertAt(s, last);
    if i < n {
      RankIsAhead(front, i);
      AheadFront(nodes, i, n);
      BeforeOrBehind(s, last, Ahead(front, i, n));
    } else {
      AheadOfLast(nodes, n, s);
    }
  }

  lemma BeforeOrBehind(s: seq<Node>, n: Node, a: nat)
    requires Descending(s) && a < |s|
    ensures if n.score > s[a].score then Pos(s, n) <= a else a < Pos(s, n)
  {
    hide Pos;
    var p := Pos(s, n);
    if p < a {
      assert s[p].score >= s[a].score;
    }
  }

  ghost predicate DistinctIds(nodes: seq<Node>) {
    forall i, j :: 0 <= i < j < |nodes| ==> nodes[i].id != nodes[j].id
  }

  lemma {:induction false} RankingDistinct(nodes: seq<Node>)
    requires DistinctIds(nodes)
    ensures DistinctIds(Ranking(nodes))
  {
    hide Insert, Pos, Descending;
    if nodes != [] {
      var front, last := nodes[..|nodes| - 1], nodes[|nodes| - 1];
      RankingDistinct(front);
      RankingSorts(front);
      var s := Ranking(front);
      forall i | 0 <= i < |s| ensures s[i].id != last.id {
        assert s[i] in multiset(s);
        assert s[i] in front;
      }
      InsertDistinct(s, last);
    }
  }

  lemma InsertDistinct(s: seq<Node>, n: Node)
    requires DistinctIds(s) && forall i :: 0 <= i < |s| ==> s[i].id != n.id
    ensures DistinctIds(Insert(s, n))
  {
    hide Insert, Pos;
    InsertAt(s, n);
  }

  lemma SelectionSorted(nodes: seq<Node>, count: nat)
    requires DistinctIds(nodes)
    ensures var sel := Select(nodes, count);
            DistinctIds(sel) && Descending(sel) && |sel| == (if count <= |nodes| then count else |nodes|)
  {
    hide Ranking;
    RankingSorts(nodes);
    RankingDistinct(nodes);
  }

  lemma SelectedByRank(nodes: seq<Node>, count: nat, i: nat)
    requires DistinctIds(nodes) && i < |nodes|
    ensures nodes[i] in Select(nodes, count) <==> Ahead(nodes, i, |nodes|) < count
  {
    hide Ranking, Ahead, Descending;
    RankingSorts(nodes);
    RankingDistinct(nodes);
    RankIsAhead(nodes, i);
    var r, sel, a := Ranking(nodes), Select(nodes, count), Ahead(nodes, i, |nodes|);
    if a < count {
      assert sel[a] == nodes[i];
    } else {
      forall k | 0 <= k < |sel| ensures sel[k] != nodes[i] {
        assert sel[k] == r[k] && r[k].id != r[a].id;
      }
    }
  }

  /** The selection is duplicate-free, by decreasing score, and holds exactly the nodes before which fewer than `count`
      nodes come. */
  lemma SelectsTop(nodes: seq<Node>, count: nat, i: nat)
    requires DistinctIds(nodes) && i < |nodes|
    ensures var sel := Select(nodes, count);
            && DistinctIds(sel) && Descending(sel) && |sel| == (if count <= |nodes| then count else |nodes|)
            && (nodes[i] in sel <==> Ahead(nodes, i, |nodes|) < count)
  {
    hide Select, Ahead, Descending, DistinctIds;
    SelectionSorted(nodes, count);
    SelectedByRank(nodes, count, i);
  }

  // ----- adding a node -----

  lemma InsertFront(u: seq<Node>, w: seq<Node>, y: Node)
    requires Pos(u + w, y) <= |u|
    ensures var p := Pos(u + w, y); Insert(u + w, y) == (u[..p] + [y] + u[p..]) + w
  {
    hide Pos;
    var p := Pos(u + w, y);
    assert (u + w)[..p] == u[..p] && (u + w)[p..] == u[p..] + w;
  }

  lemma InsertBack(u: seq<Node>, w: seq<Node>, y: Node)
    requires |u| <= Pos(u + w, y)
    ensures var k := Pos(u + w, y) - |u|; Insert(u + w, y) == u + (w[..k] + [y] + w[k..])
  {
    hide Pos;
    var k := Pos(u + w, y) - |u|;
    assert (u + w)[..|u| + k] == u + w[..k] && (u + w)[|u| + k..] == w[k..];
  }

  /** Inserting `y` with and without `x` differs only in `x`. */
  lemma InsertAround(u: seq<Node>, x: Node, v: seq<Node>, y: Node) returns (u': seq<Node>, v': seq<Node>)
    requires Descending(u + [x] + v)
    ensures Insert(u + [x] + v, y) == u' + [x] + v' && Insert(u + v, y) == u' + v'
  {
    hide Pos, Descending, Insert;
    var p := Pos(u + [x] + v, y);
    PosAround(u, x, v, y);
    if p <= |u| {
      u', v' := u[..p] + [y] + u[p..], v;
      assert u + [x] + v == u + ([x] + v);
      InsertFront(u, [x] + v, y);
      InsertFront(u, v, y);
      assert u' + ([x] + v) == u' + [x] + v;
    } else {
      var k := p - |u| - 1;
      u', v' := u, v[..k] + [y] + v[k..];
      InsertBack(u + [x], v, y);
      InsertBack(u, v, y);
    }
  }

  lemma PosAround(u: seq<Node>, x: Node, v: seq<Node>, y: Node)
    requires Descending(u + [x] + v)
    ensures var p := Pos(u + [x] + v, y); Pos(u + v, y) == if p <= |u| then p else p - 1
  {
    hide Pos;
    var s, t := u + [x] + v, u + v;
    assert forall i :: 0 <= i < |t| ==> t[i] == s[if i < |u| then i else i + 1];
    var p := Pos(s, y);
    var q := if p <= |u| then p else p - 1;
    assert q < |t| ==> t[q].score < y.score by {
      if q < |t| {
        var q' := if q < |u| then q else q + 1;
        assert s[p].score >= s[q'].score;
      }
    }
    PosUnique(t, y, q);
  }

  /** The ranking with a newcomer is the old ranking with the newcomer put in somewhere. */
  lemma {:induction false} NewcomerInRanking(a: seq<Node>, x: Node, b: seq<Node>) returns (u: seq<Node>, v: seq<Node>)
    ensures Ranking(a + [x] + b) == u + [x] + v && Ranking(a + b) == u + v
    decreases |b|
  {
    hide Pos, Descending, Insert;
    if b == [] {
      u, v := InsertSplits(a, x);
    } else {
      var front, y := b[..|b| - 1], b[|b| - 1];
      u, v := NewcomerInRanking(a, x, front);
      RankingStep(a + [x] + front, y);
      RankingStep(a + front, y);
      assert a + [x] + b == a + [x] + front + [y] && a + b == a + front + [y];
      RankingSorts(a + [x] + front);
      u, v := InsertAround(u, x, v, y);
    }
  }

  lemma RankingStep(nodes: seq<Node>, y: Node)
    ensures Ranking(nodes + [y]) == Insert(Ranking(nodes), y)
  {
    assert (nodes + [y])[..|nodes|] == nodes;
  }

  lemma InsertSplits(a: seq<Node>, x: Node) returns (u: seq<Node>, v: seq<Node>)
    ensures Ranking(a + [x] + []) == u + [x] + v && Ranking(a + []) == u + v
  {
    hide Pos, Ranking;
    assert a + [x] + [] == a + [x] && a + [] == a;
    RankingStep(a, x);
    var s := Ranking(a);
    var p := Pos(s, x);
    u, v := s[..p], s[p..];
    assert s == u + v;
  }

  /** Adding a node anywhere in the list: either the selection stays as it is, or the newcomer is put in and the rest is
      the old selection without at most its last node. */
  lemma AddingDisplacesAtMostOne(a: seq<Node>, x: Node, b: seq<Node>, count: nat)
    ensures var was, now := Select(a + b, count), Select(a + [x] + b, count);
            || now == was
            || exists k {:trigger now[..k]} :: 0 <= k < |now| && now[k] == x && now[..k] + now[k + 1..] <= was
                 && |was| <= |now[..k] + now[k + 1..]| + 1
  {
    hide Ranking, Insert;
    var u, v := NewcomerInRanking(a, x, b);
    var was, now := Select(a + b, count), Select(a + [x] + b, count);
    if count <= |u| {
      assert now == u[..count] == was;
    } else {
      var k := |u|;
      assert now[k] == x && now[..k] == u;
      var w := Take(v, count - |u| - 1);
      assert now == u + [x] + w;
      assert now[k + 1..] == w;
      assert was[..|u + w|] == u + w;
    }
  }

  // ----- round-robin placement -----

  /** How many of the first `n` shards go to selected node `j` of `m`. */
  function Load(n: nat, m: nat, j: nat): nat
    requires m > 0
  {
    if n == 0 then 0 else Load(n - 1, m, j) + if (n - 1) % m == j then 1 else 0
  }

  lemma {:induction false} LoadExact(n: nat, m: nat, j: nat)
    requires j < m
    ensures Load(n, m, j) == n / m + if j < n % m then 1 else 0
  {
    if n > 0 {
      LoadExact(n - 1, m, j);
      NextQuotient(n - 1, m);
    }
  }

  lemma NextQuotient(n: nat, m: nat)
    requires m > 0
    ensures if n % m == m - 1 then (n + 1) / m == n / m + 1 && (n + 1) % m == 0
            else (n + 1) / m == n / m && (n + 1) % m == n % m + 1
  {
    var q, r := n / m, n % m;
    assert n == m * q + r;
    if r == m - 1 {
      assert n + 1 == m * (q + 1);
      Quotient(n + 1, m, q + 1, 0);
    } else {
      Quotient(n + 1, m, q, r + 1);
    }
  }

  lemma Grows(m: nat, a: nat, b: nat)
    requires a <= b
    ensures m * a <= m * b
  {
    assert m * b == m * a + m * (b - a);
  }

  lemma Quotient(n: nat, m: nat, q: nat, r: nat)
    requires m > 0 && n == m * q + r && r < m
    ensures n / m == q && n % m == r
  {
    var k: nat := n / m;
    assert n == m * k + n % m;
    if k > q {
      Grows(m, q + 1, k);
    } else if k < q {
      Grows(m, k + 1, q);
    }
  }

  /** With `m` selected nodes, every node holds at most `ceil(n / m)` of `n` shards, and at least `floor(n / m)`. */
  lemma PlacementBalanced(n: nat, m: nat, j: nat)
    requires j < m
    ensures n / m <= Load(n, m, j) <= n / m + if n % m == 0 then 0 else 1
  {
    LoadExact(n, m, j);
  }
}
