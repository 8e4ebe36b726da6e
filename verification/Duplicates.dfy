/** `build_groups`: grouping similar images by connected component. */
module Duplicates {
  import opened Connectivity
  import opened Forest
  import U = UnionFind

  datatype Group = Group(similarity: real, images: seq<string>)

  ghost predicate Mentions(pairs: seq<Pair>, h: string) {
    exists i :: 0 <= i < |pairs| && (pairs[i].a == h || pairs[i].b == h)
  }

  // ----- indexing the hashes -----

  /** The hashes of all pairs as they are read, the first of a pair before the second. */
  ghost function Words(pairs: seq<Pair>): seq<string> {
    if pairs == [] then []
    else Words(pairs[..|pairs| - 1]) + [pairs[|pairs| - 1].a, pairs[|pairs| - 1].b]
  }

  /** `h` occurs before the first occurrence of `k`. */
  ghost predicate Before(words: seq<string>, h: string, k: string) {
    exists p :: 0 <= p < |words| && words[p] == h && k !in words[..p + 1]
  }

  /** The hashes are listed as they are first mentioned. */
  ghost predicate InOrder(words: seq<string>, hashes: seq<string>) {
    forall i, j :: 0 <= i < j < |hashes| ==> Before(words, hashes[i], hashes[j])
  }

  /** `hashes` lists every mentioned hash once, in order of its first mention, and `index` is its inverse. */
  ghost predicate Indexed(pairs: seq<Pair>, hashes: seq<string>, index: map<string, nat>) {
    && (forall h :: h in index <==> Mentions(pairs, h))
    && Inverse(hashes, index)
    && InOrder(Words(pairs), hashes)
  }

  ghost predicate Inverse(hashes: seq<string>, index: map<string, nat>) {
    && (forall h :: h in index ==> index[h] < |hashes| && hashes[index[h]] == h)
    && (forall i :: 0 <= i < |hashes| ==> hashes[i] in index && index[hashes[i]] == i)
  }

  lemma BeforeMore(words: seq<string>, more: seq<string>, h: string, k: string)
    requires Before(words, h, k)
    ensures Before(words + more, h, k)
  {
    var p :| 0 <= p < |words| && words[p] == h && k !in words[..p + 1];
    assert (words + more)[p] == h && (words + more)[..p + 1] == words[..p + 1];
  }

  lemma NewIsLast(words: seq<string>, h: string, k: string)
    requires h in words && k !in words
    ensures Before(words + [k], h, k)
  {
    var p :| 0 <= p < |words| && words[p] == h;
    assert (words + [k])[p] == h && (words + [k])[..p + 1] == words[..p + 1];
  }

  method AddHash(ghost words: seq<string>, hashes: seq<string>, index: map<string, nat>, h: string)
    returns (hashes': seq<string>, index': map<string, nat>)
    requires Inverse(hashes, index) && InOrder(words, hashes) && forall k :: k in index <==> k in words
    ensures Inverse(hashes', index') && index'.Keys == index.Keys + {h}
    ensures InOrder(words + [h], hashes') && forall k :: k in index' <==> k in words + [h]
  {
    hide Before;
    hashes', index' := hashes, index;
    if h !in index {
      index' := index[h := |hashes|];
      hashes' := hashes + [h];
    }
    forall i, j | 0 <= i < j < |hashes'| ensures Before(words + [h], hashes'[i], hashes'[j]) {
      if j < |hashes| {
        BeforeMore(words, [h], hashes[i], hashes[j]);
      } else {
        assert hashes[i] in index;
        NewIsLast(words, hashes[i], h);
      }
    }
  }

  method IndexHashes(pairs: seq<Pair>) returns (hashes: seq<string>, index: map<string, nat>)
    ensures Indexed(pairs, hashes, index)
  {
    hide InOrder;
    hashes, index := [], map[];
    NothingListed();
    for k := 0 to |pairs|
      invariant Indexed(pairs[..k], hashes, index)
      invariant forall h :: h in index <==> h in Words(pairs[..k])
    {
      ghost var before, words := index.Keys, Words(pairs[..k]);
      hashes, index := AddHash(words, hashes, index, pairs[k].a);
      hashes, index := AddHash(words + [pairs[k].a], hashes, index, pairs[k].b);
      assert words + [pairs[k].a] + [pairs[k].b] == words + [pairs[k].a, pairs[k].b];
      assert pairs[..k + 1][..k] == pairs[..k];
      forall h ensures h in index <==> Mentions(pairs[..k + 1], h) {
        MentionsStep(pairs, k, h);
        assert h in before <==> Mentions(pairs[..k], h);
      }
    }
    assert pairs[..|pairs|] == pairs;
  }

  lemma NothingListed()
    ensures InOrder([], [])
  {
  }

  lemma MentionsStep(pairs: seq<Pair>, k: nat, h: string)
    requires k < |pairs|
    ensures Mentions(pairs[..k + 1], h) <==> Mentions(pairs[..k], h) || pairs[k].a == h || pairs[k].b == h
  {
    var less, more := pairs[..k], pairs[..k + 1];
    if Mentions(less, h) {
      var i :| 0 <= i < |less| && (less[i].a == h || less[i].b == h);
      assert more[i] == less[i];
    }
    if Mentions(more, h) {
      var i :| 0 <= i < |more| && (more[i].a == h || more[i].b == h);
      assert i < k ==> less[i] == more[i];
    }
    assert more[k] == pairs[k];
  }

  // ----- uniting the pairs -----

  /** Two hashes have the same root exactly when they are connected. */
  ghost predicate Partition(pairs: seq<Pair>, hashes: seq<string>, roots: seq<nat>) {
    && |roots| == |hashes|
    && forall i, j :: 0 <= i < |hashes| && 0 <= j < |hashes| ==>
         (roots[i] == roots[j] <==> Connected(pairs, hashes[i], hashes[j]))
  }

  lemma PartitionStep(pairs: seq<Pair>, p: Pair, hashes: seq<string>, roots: seq<nat>, merged: seq<nat>, x: nat, y: nat)
    requires Partition(pairs, hashes, roots) && x < |roots| && y < |roots|
    requires hashes[x] == p.a && hashes[y] == p.b && Joined(roots, merged, x, y)
    ensures Partition(pairs + [p], hashes, merged)
  {
    hide Connected;
    forall i, j | 0 <= i < |hashes| && 0 <= j < |hashes|
      ensures merged[i] == merged[j] <==> Connected(pairs + [p], hashes[i], hashes[j])
    {
      OneMorePair(pairs, p, hashes[i], hashes[j]);
    }
  }

  method UniteAll(pairs: seq<Pair>, hashes: seq<string>, index: map<string, nat>) returns (uf: U.UnionFind)
    requires Indexed(pairs, hashes, index)
    ensures fresh(uf) && uf.Valid() && Partition(pairs, hashes, uf.Rep())
  {
    hide Connected, Sound, Roots, Joined;
    uf := new U.UnionFind(|hashes|);
    assert Partition(pairs[..0], hashes, uf.Rep()) by {
      SingletonsPartition(pairs, hashes, index, uf.Rep());
    }
    for k := 0 to |pairs|
      invariant fresh(uf) && uf.Valid() && Partition(pairs[..k], hashes, uf.Rep())
    {
      ghost var roots := uf.Rep();
      assert Mentions(pairs, pairs[k].a) && Mentions(pairs, pairs[k].b);
      uf.Union(index[pairs[k].a], index[pairs[k].b]);
      PartitionStep(pairs[..k], pairs[k], hashes, roots, uf.Rep(), index[pairs[k].a], index[pairs[k].b]);
      assert pairs[..k + 1] == pairs[..k] + [pairs[k]];
    }
    assert pairs[..|pairs|] == pairs;
  }

  lemma SingletonsPartition(pairs: seq<Pair>, hashes: seq<string>, index: map<string, nat>, roots: seq<nat>)
    requires Inverse(hashes, index) && roots == seq(|hashes|, i => i)
    ensures Partition(pairs[..0], hashes, roots)
  {
    hide Connected;
    assert pairs[..0] == [];
    forall i, j | 0 <= i < |hashes| && 0 <= j < |hashes|
      ensures roots[i] == roots[j] <==> Connected([], hashes[i], hashes[j])
    {
      NoPairs(hashes[i], hashes[j]);
    }
  }

  // ----- similarity of a component -----

  /** The root of a pair's first hash. */
  function PairRoot(index: map<string, nat>, roots: seq<nat>, p: Pair): nat
    requires p.a in index && index[p.a] < |roots|
  {
    roots[index[p.a]]
  }

  ghost predicate Known(pairs: seq<Pair>, index: map<string, nat>, roots: seq<nat>) {
    forall i :: 0 <= i < |pairs| ==> pairs[i].a in index && index[pairs[i].a] < |roots|
  }

  /** Per root the greatest similarity of the first `k` pairs attributed to it, at least 0. */
  ghost predicate TopSims(pairs: seq<Pair>, index: map<string, nat>, roots: seq<nat>, k: nat, sims: map<nat, real>)
    requires k <= |pairs| && Known(pairs, index, roots)
  {
    && (forall i {:trigger pairs[i]} :: 0 <= i < k ==>
          PairRoot(index, roots, pairs[i]) in sims && pairs[i].sim <= sims[PairRoot(index, roots, pairs[i])])
    && (forall r :: r in sims ==> sims[r] >= 0.0)
    && (forall r :: r in sims && sims[r] != 0.0 ==>
          exists i :: 0 <= i < k && PairRoot(index, roots, pairs[i]) == r && pairs[i].sim == sims[r])
  }

  method RankPairs(pairs: seq<Pair>, index: map<string, nat>, uf: U.UnionFind) returns (sims: map<nat, real>)
    requires uf.Valid() && Known(pairs, index, uf.Rep())
    modifies uf
    ensures uf.Valid() && uf.Rep() == old(uf.Rep())
    ensures Known(pairs, index, uf.Rep()) && TopSims(pairs, index, uf.Rep(), |pairs|, sims)
  {
    hide Sound, Roots, Depth, Ranked, Populous, TopSims;
    sims := map[];
    NothingRanked(pairs, index, uf.Rep());
    for k := 0 to |pairs|
      invariant uf.Valid() && uf.Rep() == old(uf.Rep())
      invariant TopSims(pairs, index, uf.Rep(), k, sims)
    {
      ghost var before := sims;
      var root, _ := uf.Find(index[pairs[k].a]);
      if root !in sims {
        sims := sims[root := 0.0];
      }
      if pairs[k].sim > sims[root] {
        sims := sims[root := pairs[k].sim];
      }
      ghost var low := if root in before then before[root] else 0.0;
      assert sims == before[root := if pairs[k].sim > low then pairs[k].sim else low];
      TopSimsStep(pairs, index, uf.Rep(), k, before, sims);
    }
  }

  lemma NothingRanked(pairs: seq<Pair>, index: map<string, nat>, roots: seq<nat>)
    requires Known(pairs, index, roots)
    ensures TopSims(pairs, index, roots, 0, map[])
  {
  }

  lemma TopSimsStep(
      pairs: seq<Pair>, index: map<string, nat>, roots: seq<nat>, k: nat, sims: map<nat, real>, sims': map<nat, real>)
    requires k < |pairs| && Known(pairs, index, roots) && TopSims(pairs, index, roots, k, sims)
    requires var root := PairRoot(index, roots, pairs[k]);
             var low := if root in sims then sims[root] else 0.0;
             sims' == sims[root := if pairs[k].sim > low then pairs[k].sim else low]
    ensures TopSims(pairs, index, roots, k + 1, sims')
  {
    var root := PairRoot(index, roots, pairs[k]);
    forall r | r in sims'
      ensures sims'[r] >= 0.0
      ensures sims'[r] == 0.0 ||
          exists i :: 0 <= i < k + 1 && PairRoot(index, roots, pairs[i]) == r && pairs[i].sim == sims'[r]
    {
      if r in sims && sims'[r] == sims[r] && sims[r] != 0.0 {
        var i :| 0 <= i < k && PairRoot(index, roots, pairs[i]) == r && pairs[i].sim == sims[r];
      }
    }
  }

  // ----- members of a component -----

  /** The nodes below `k` with root `r`, in order. */
  ghost function Members(roots: seq<nat>, r: nat, k: nat): (s: seq<nat>)
    requires k <= |roots|
    ensures forall p :: 0 <= p < |s| ==> s[p] < k && roots[s[p]] == r
    ensures forall p, q :: 0 <= p < q < |s| ==> s[p] < s[q]
  {
    if k == 0 then []
    else if roots[k - 1] == r then Members(roots, r, k - 1) + [k - 1]
    else Members(roots, r, k - 1)
  }

  lemma {:induction false} MembersAll(roots: seq<nat>, r: nat, k: nat, i: nat)
    requires i < k <= |roots| && roots[i] == r
    ensures i in Members(roots, r, k)
  {
    if i < k - 1 {
      MembersAll(roots, r, k - 1, i);
    }
  }

  ghost predicate ByRoot(roots: seq<nat>, k: nat, members: map<nat, seq<nat>>)
    requires k <= |roots|
  {
    && (forall i :: 0 <= i < k ==> roots[i] in members)
    && (forall r :: r in members ==> members[r] != [] && members[r] == Members(roots, r, k))
  }

  method CollectMembers(uf: U.UnionFind) returns (members: map<nat, seq<nat>>)
    requires uf.Valid()
    modifies uf
    ensures uf.Valid() && uf.Rep() == old(uf.Rep())
    ensures ByRoot(uf.Rep(), |uf.Rep()|, members)
  {
    hide Sound, Roots, Depth, Ranked, Populous;
    members := map[];
    ghost var roots := uf.Rep();
    for i := 0 to |uf.parent|
      invariant uf.Valid() && uf.Rep() == roots && |uf.parent| == |roots|
      invariant ByRoot(roots, i, members)
    {
      var root, _ := uf.Find(i);
      ByRootStep(roots, i, members);
      members := members[root := (if root in members then members[root] else []) + [i]];
    }
  }

  lemma ByRootStep(roots: seq<nat>, i: nat, members: map<nat, seq<nat>>)
    requires i < |roots| && ByRoot(roots, i, members)
    ensures var root := roots[i];
            ByRoot(roots, i + 1, members[root := (if root in members then members[root] else []) + [i]])
  {
    var root := roots[i];
    var earlier := Members(roots, root, i);
    assert earlier != [] ==> roots[earlier[0]] in members;
  }

  // ----- the groups -----

  ghost predicate Below(nodes: seq<nat>, n: nat) {
    forall p :: 0 <= p < |nodes| ==> nodes[p] < n
  }

  /** The hashes of `nodes` for which there is metadata, in order. */
  function Images(nodes: seq<nat>, hashes: seq<string>, meta: set<string>): (s: seq<string>)
    requires Below(nodes, |hashes|)
    ensures |s| <= |nodes|
  {
    if nodes == [] then []
    else
      var rest := Images(nodes[..|nodes| - 1], hashes, meta);
      var h := hashes[nodes[|nodes| - 1]];
      if h in meta then rest + [h] else rest
  }

  lemma {:induction false} ImagesFrom(nodes: seq<nat>, hashes: seq<string>, meta: set<string>, h: string)
    requires Below(nodes, |hashes|) && h in Images(nodes, hashes, meta)
    ensures h in meta && exists p :: 0 <= p < |nodes| && hashes[nodes[p]] == h
  {
    var n := |nodes| - 1;
    if h in Images(nodes[..n], hashes, meta) {
      ImagesFrom(nodes[..n], hashes, meta, h);
      var p :| 0 <= p < n && hashes[nodes[..n][p]] == h;
      assert hashes[nodes[p]] == h;
    } else {
      assert hashes[nodes[n]] == h;
    }
  }

  lemma {:induction false} ImagesHas(nodes: seq<nat>, hashes: seq<string>, meta: set<string>, p: nat)
    requires Below(nodes, |hashes|) && p < |nodes| && hashes[nodes[p]] in meta
    ensures hashes[nodes[p]] in Images(nodes, hashes, meta)
  {
    var n := |nodes| - 1;
    if p < n {
      assert nodes[..n][p] == nodes[p];
      ImagesHas(nodes[..n], hashes, meta, p);
    }
  }

  ghost predicate NoRepeats(s: seq<string>) {
    forall i, j :: 0 <= i < j < |s| ==> s[i] != s[j]
  }

  /** The images are in the order of the hashes. */
  lemma {:induction false} ImagesInOrder(nodes: seq<nat>, words: seq<string>, hashes: seq<string>, meta: set<string>)
    requires InOrder(words, hashes) && Below(nodes, |hashes|)
    requires forall p, q :: 0 <= p < q < |nodes| ==> nodes[p] < nodes[q]
    ensures InOrder(words, Images(nodes, hashes, meta))
  {
    hide Before;
    if nodes != [] {
      var n := |nodes| - 1;
      var images, rest := Images(nodes, hashes, meta), Images(nodes[..n], hashes, meta);
      ImagesInOrder(nodes[..n], words, hashes, meta);
      forall i, j | 0 <= i < j < |images| ensures Before(words, images[i], images[j]) {
        if j == |rest| {
          ImagesFrom(nodes[..n], hashes, meta, rest[i]);
          var p :| 0 <= p < n && hashes[nodes[..n][p]] == rest[i];
          assert nodes[..n][p] == nodes[p];
        }
      }
    }
  }

  lemma InOrderDistinct(words: seq<string>, hashes: seq<string>)
    requires InOrder(words, hashes)
    ensures NoRepeats(hashes)
  {
    forall i, j | 0 <= i < j < |hashes| ensures hashes[i] != hashes[j] {
      var p :| 0 <= p < |words| && words[p] == hashes[i] && hashes[j] !in words[..p + 1];
      assert words[..p + 1][p] == hashes[i];
    }
  }

  /** The greatest similarity of any pair in the component of `h`, at least 0. */
  ghost predicate IsTopSim(pairs: seq<Pair>, h: string, s: real) {
    && s >= 0.0
    && (forall i :: 0 <= i < |pairs| && Connected(pairs, h, pairs[i].a) ==> pairs[i].sim <= s)
    && (s == 0.0 || exists i :: 0 <= i < |pairs| && Connected(pairs, h, pairs[i].a) && pairs[i].sim == s)
  }

  /** `g` shows the images of the component of `h` that have metadata, once each, in order of their first mention, with
      the component's similarity. */
  ghost predicate Shows(pairs: seq<Pair>, meta: set<string>, h: string, g: Group) {
    && Mentions(pairs, h)
    && (forall k :: k in g.images <==> k in meta && Mentions(pairs, k) && Connected(pairs, h, k))
    && NoRepeats(g.images) && InOrder(Words(pairs), g.images)
    && IsTopSim(pairs, h, g.similarity)
  }

  ghost predicate Disjoint(a: Group, b: Group) {
    forall h :: h in a.images ==> h !in b.images
  }

  ghost predicate PairwiseDisjoint(groups: seq<Group>) {
    forall i, j :: 0 <= i < j < |groups| ==> Disjoint(groups[i], groups[j])
  }

  ghost predicate SortedBySimilarity(groups: seq<Group>) {
    forall i, j :: 0 <= i < j < |groups| ==> groups[i].similarity >= groups[j].similarity
  }

  /** Everything known after the union and attribution passes. */
  ghost predicate Analysed(pairs: seq<Pair>, hashes: seq<string>, index: map<string, nat>, roots: seq<nat>,
                           sims: map<nat, real>, members: map<nat, seq<nat>>) {
    && Indexed(pairs, hashes, index) && Partition(pairs, hashes, roots)
    && Known(pairs, index, roots) && TopSims(pairs, index, roots, |pairs|, sims)
    && ByRoot(roots, |roots|, members)
  }

  function GroupOf(sims: map<nat, real>, nodes: seq<nat>, hashes: seq<string>, meta: set<string>, r: nat): Group
    requires Below(nodes, |hashes|)
  {
    Group(if r in sims then sims[r] else 0.0, Images(nodes, hashes, meta))
  }

  /** The members of `r` are exactly the nodes with that root, in increasing order. */
  lemma RootMembers(pairs: seq<Pair>, hashes: seq<string>, index: map<string, nat>, roots: seq<nat>,
                    sims: map<nat, real>, members: map<nat, seq<nat>>, r: nat)
    requires Analysed(pairs, hashes, index, roots, sims, members) && r in members
    ensures |roots| == |hashes| && Below(members[r], |hashes|) && members[r] != []
    ensures forall p, q :: 0 <= p < q < |members[r]| ==> members[r][p] < members[r][q]
    ensures forall p :: 0 <= p < |members[r]| ==> roots[members[r][p]] == r
    ensures forall i :: 0 <= i < |roots| && roots[i] == r ==> i in members[r]
  {
    hide Indexed, TopSims, Connected;
    forall i | 0 <= i < |roots| && roots[i] == r ensures i in members[r] {
      MembersAll(roots, r, |roots|, i);
    }
  }

  lemma RootSim(
      pairs: seq<Pair>, hashes: seq<string>, index: map<string, nat>, roots: seq<nat>, sims: map<nat, real>, first: nat)
    requires Indexed(pairs, hashes, index) && Partition(pairs, hashes, roots) && first < |hashes|
    requires Known(pairs, index, roots) && TopSims(pairs, index, roots, |pairs|, sims)
    ensures var r := roots[first]; IsTopSim(pairs, hashes[first], if r in sims then sims[r] else 0.0)
  {
    hide Connected, Mentions;
    forall i | 0 <= i < |pairs|
      ensures Connected(pairs, hashes[first], pairs[i].a) <==> PairRoot(index, roots, pairs[i]) == roots[first]
    {
      assert hashes[index[pairs[i].a]] == pairs[i].a;
    }
  }

  /** Every root's group shows the component of its first member. */
  lemma GroupShows(pairs: seq<Pair>, hashes: seq<string>, index: map<string, nat>, roots: seq<nat>,
                   sims: map<nat, real>, members: map<nat, seq<nat>>, meta: set<string>, r: nat)
    requires Analysed(pairs, hashes, index, roots, sims, members) && r in members
    ensures Below(members[r], |hashes|)
    ensures exists h :: Shows(pairs, meta, h, GroupOf(sims, members[r], hashes, meta, r))
  {
    hide Connected, Mentions, TopSims, IsTopSim, Partition, ByRoot, NoRepeats, InOrder, Words;
    RootMembers(pairs, hashes, index, roots, sims, members, r);
    var nodes := members[r];
    RootSim(pairs, hashes, index, roots, sims, nodes[0]);
    ImagesInOrder(nodes, Words(pairs), hashes, meta);
    InOrderDistinct(Words(pairs), Images(nodes, hashes, meta));
    forall k
      ensures k in Images(nodes, hashes, meta)
         <==> k in meta && Mentions(pairs, k) && Connected(pairs, hashes[nodes[0]], k)
    {
      ImageShown(pairs, hashes, index, roots, nodes, meta, k);
    }
    assert Shows(pairs, meta, hashes[nodes[0]], GroupOf(sims, nodes, hashes, meta, r));
  }

  lemma ImageShown(pairs: seq<Pair>, hashes: seq<string>, index: map<string, nat>, roots: seq<nat>, nodes: seq<nat>,
                   meta: set<string>, k: string)
    requires Indexed(pairs, hashes, index) && Partition(pairs, hashes, roots) && Below(nodes, |hashes|) && nodes != []
    requires forall p :: 0 <= p < |nodes| ==> roots[nodes[p]] == roots[nodes[0]]
    requires forall i :: 0 <= i < |roots| && roots[i] == roots[nodes[0]] ==> i in nodes
    ensures k in Images(nodes, hashes, meta)
        <==> k in meta && Mentions(pairs, k) && Connected(pairs, hashes[nodes[0]], k)
  {
    hide Connected, Mentions;
    if k in Images(nodes, hashes, meta) {
      ImagesFrom(nodes, hashes, meta, k);
      var p :| 0 <= p < |nodes| && hashes[nodes[p]] == k;
      assert roots[nodes[p]] == roots[nodes[0]];
    }
    if k in meta && Mentions(pairs, k) && Connected(pairs, hashes[nodes[0]], k) {
      assert roots[index[k]] == roots[nodes[0]];
      var p :| 0 <= p < |nodes| && nodes[p] == index[k];
      ImagesHas(nodes, hashes, meta, p);
    }
  }

  /** The group of root `r` is among `groups`, unless it is too small to show. */
  ghost predicate Grouped(
      hashes: seq<string>, sims: map<nat, real>, members: map<nat, seq<nat>>, meta: set<string>, groups: seq<Group>,
      r: nat)
    requires r in members
  {
    && Below(members[r], |hashes|)
    && (|Images(members[r], hashes, meta)| >= 2 ==> GroupOf(sims, members[r], hashes, meta, r) in groups)
  }

  ghost predicate IsGroup(pairs: seq<Pair>, meta: set<string>, g: Group) {
    |g.images| >= 2 && exists h :: Shows(pairs, meta, h, g)
  }

  method CollectGroups(
      ghost pairs: seq<Pair>, hashes: seq<string>, ghost index: map<string, nat>, ghost roots: seq<nat>,
      sims: map<nat, real>, members: map<nat, seq<nat>>, meta: set<string>)
    returns (groups: seq<Group>)
    requires Analysed(pairs, hashes, index, roots, sims, members)
    ensures forall g :: g in groups ==> IsGroup(pairs, meta, g)
    ensures PairwiseDisjoint(groups)
    ensures forall r :: r in members ==> Grouped(hashes, sims, members, meta, groups, r)
  {
    hide Analysed, Shows, Connected, Disjoint, From, Below, IsGroup;
    groups := [];
    var todo := members.Keys;
    while todo != {}
      invariant todo <= members.Keys
      invariant forall g :: g in groups ==>
          IsGroup(pairs, meta, g) && From(hashes, sims, members, meta, members.Keys - todo, g)
      invariant PairwiseDisjoint(groups)
      invariant forall r :: r in members && r !in todo ==> Grouped(hashes, sims, members, meta, groups, r)
    {
      var root :| root in todo;
      GroupShows(pairs, hashes, index, roots, sims, members, meta, root);
      var g := GroupOf(sims, members[root], hashes, meta, root);
      forall f | f in groups
        ensures Disjoint(f, g) && From(hashes, sims, members, meta, members.Keys - (todo - {root}), f)
      {
        DistinctGroups(pairs, hashes, index, roots, sims, members, meta, members.Keys - todo, f, root);
        FromMore(hashes, sims, members, meta, members.Keys - todo, members.Keys - (todo - {root}), f);
      }
      todo := todo - {root};
      if |members[root]| >= 2 && |g.images| >= 2 {
        assert From(hashes, sims, members, meta, members.Keys - todo, g) by {
          FromOne(hashes, sims, members, meta, members.Keys - todo, root);
        }
        assert IsGroup(pairs, meta, g) by {
          LargeEnough(pairs, meta, g);
        }
        groups := groups + [g];
      }
    }
  }

  lemma LargeEnough(pairs: seq<Pair>, meta: set<string>, g: Group)
    requires |g.images| >= 2 && exists h :: Shows(pairs, meta, h, g)
    ensures IsGroup(pairs, meta, g)
  {
  }

  /** `g` is the group of one of the roots in `done`. */
  ghost predicate From(
      hashes: seq<string>, sims: map<nat, real>, members: map<nat, seq<nat>>, meta: set<string>, done: set<nat>,
      g: Group) {
    exists r :: r in done && r in members && Below(members[r], |hashes|) &&
        g == GroupOf(sims, members[r], hashes, meta, r)
  }

  lemma FromOne(
      hashes: seq<string>, sims: map<nat, real>, members: map<nat, seq<nat>>, meta: set<string>, done: set<nat>, r: nat)
    requires r in done && r in members && Below(members[r], |hashes|)
    ensures From(hashes, sims, members, meta, done, GroupOf(sims, members[r], hashes, meta, r))
  {
  }

  lemma FromMore(
      hashes: seq<string>, sims: map<nat, real>, members: map<nat, seq<nat>>, meta: set<string>, done: set<nat>,
      more: set<nat>, g: Group)
    requires From(hashes, sims, members, meta, done, g) && done <= more
    ensures From(hashes, sims, members, meta, more, g)
  {
    var r :| r in done && r in members && Below(members[r], |hashes|) &&
        g == GroupOf(sims, members[r], hashes, meta, r);
    assert r in more;
  }

  lemma DistinctGroups(
      pairs: seq<Pair>, hashes: seq<string>, index: map<string, nat>, roots: seq<nat>, sims: map<nat, real>,
      members: map<nat, seq<nat>>, meta: set<string>, done: set<nat>, f: Group, root: nat)
    requires Analysed(pairs, hashes, index, roots, sims, members) && root in members && root !in done
    requires From(hashes, sims, members, meta, done, f) && Below(members[root], |hashes|)
    ensures Disjoint(f, GroupOf(sims, members[root], hashes, meta, root))
  {
    hide Connected, Mentions, TopSims, Partition, ByRoot, Images;
    var r :| r in done && r in members && Below(members[r], |hashes|) &&
        f == GroupOf(sims, members[r], hashes, meta, r);
    RootMembers(pairs, hashes, index, roots, sims, members, r);
    RootMembers(pairs, hashes, index, roots, sims, members, root);
    forall h | h in f.images ensures h !in Images(members[root], hashes, meta) {
      ImagesFrom(members[r], hashes, meta, h);
      var p :| 0 <= p < |members[r]| && hashes[members[r][p]] == h;
      if h in Images(members[root], hashes, meta) {
        ImagesFrom(members[root], hashes, meta, h);
        assert false;
      }
    }
  }

  // ----- ordering the groups -----

  method InsertGroup(groups: seq<Group>, g: Group) returns (r: seq<Group>)
    requires SortedBySimilarity(groups) && PairwiseDisjoint(groups)
    requires forall f :: f in groups ==> Disjoint(f, g)
    ensures SortedBySimilarity(r) && PairwiseDisjoint(r) && multiset(r) == multiset(groups) + multiset{g}
  {
    hide PairwiseDisjoint, SortedBySimilarity, Disjoint;
    var k: nat := |groups|;
    while k > 0 && groups[k - 1].similarity < g.similarity
      invariant k <= |groups|
      invariant forall i :: k <= i < |groups| ==> groups[i].similarity < g.similarity
    {
      k := k - 1;
    }
    r := groups[..k] + [g] + groups[k..];
    InsertedDisjoint(groups, g, k);
    InsertedSorted(groups, g, k);
    assert groups == groups[..k] + groups[k..];
  }

  lemma InsertedSorted(groups: seq<Group>, g: Group, k: nat)
    requires k <= |groups| && SortedBySimilarity(groups) && (k > 0 ==> groups[k - 1].similarity >= g.similarity)
    requires forall i :: k <= i < |groups| ==> groups[i].similarity < g.similarity
    ensures SortedBySimilarity(groups[..k] + [g] + groups[k..])
  {
    var r := groups[..k] + [g] + groups[k..];
    assert forall i :: 0 <= i < |r| ==> r[i] == if i < k then groups[i] else if i == k then g else groups[i - 1];
  }

  lemma InsertedDisjoint(groups: seq<Group>, g: Group, k: nat)
    requires k <= |groups| && PairwiseDisjoint(groups) && forall f :: f in groups ==> Disjoint(f, g)
    ensures PairwiseDisjoint(groups[..k] + [g] + groups[k..])
  {
    hide Disjoint;
    var r := groups[..k] + [g] + groups[k..];
    forall i, j | 0 <= i < j < |r| ensures Disjoint(r[i], r[j]) {
      if j == k {
        assert r[i] == groups[i];
      } else if i == k {
        assert r[j] == groups[j - 1];
        DisjointBack(r[j], g);
      } else {
        assert r[i] == groups[if i < k then i else i - 1] && r[j] == groups[if j < k then j else j - 1];
      }
    }
  }

  lemma DisjointBack(a: Group, b: Group)
    ensures Disjoint(a, b) ==> Disjoint(b, a)
  {
  }

  method SortGroups(groups: seq<Group>) returns (r: seq<Group>)
    requires PairwiseDisjoint(groups)
    ensures SortedBySimilarity(r) && PairwiseDisjoint(r) && multiset(r) == multiset(groups)
  {
    hide Disjoint;
    r := [];
    for k := 0 to |groups|
      invariant SortedBySimilarity(r) && PairwiseDisjoint(r) && multiset(r) == multiset(groups[..k])
    {
      forall f | f in r ensures Disjoint(f, groups[k]) {
        assert f in multiset(groups[..k]);
        assert f in groups[..k];
      }
      r := InsertGroup(r, groups[k]);
      assert groups[..k + 1] == groups[..k] + [groups[k]];
    }
    assert groups[..|groups|] == groups;
  }

  /** `build_groups`; `meta` holds the hashes for which the image table has a row. Every returned group is a whole
      component of the similarity graph, every component with two images is returned once, best match first. */
  method BuildGroups(pairs: seq<Pair>, meta: set<string>) returns (groups: seq<Group>)
    ensures forall g :: g in groups ==> IsGroup(pairs, meta, g)
    ensures forall h, k ::
              h != k && h in meta && k in meta && Mentions(pairs, h) && Mentions(pairs, k) && Connected(pairs, h, k)
              ==> exists g :: g in groups && h in g.images && k in g.images
    ensures PairwiseDisjoint(groups) && SortedBySimilarity(groups)
  {
    hide Connected, IsGroup, Sound, Roots, Disjoint, Indexed, Partition, TopSims, ByRoot, Known, Mentions, Images,
      Depth;
    if pairs == [] {
      NothingMentioned(pairs);
      return [];
    }
    var hashes, index := IndexHashes(pairs);
    var uf := UniteAll(pairs, hashes, index);
    IndexedKnown(pairs, hashes, index, uf.Rep());
    var sims := RankPairs(pairs, index, uf);
    var members := CollectMembers(uf);
    ghost var roots := uf.Rep();
    var found := CollectGroups(pairs, hashes, index, roots, sims, members, meta);
    groups := SortGroups(found);
    assert forall g :: g in groups <==> g in multiset(groups);
    assert forall g :: g in found <==> g in multiset(found);
    assert forall g :: g in groups <==> g in found;
    forall h, k | h != k && h in meta && k in meta && Mentions(pairs, h) && Mentions(pairs, k) && Connected(pairs, h, k)
      ensures exists g :: g in groups && h in g.images && k in g.images
    {
      var r := TwoShown(pairs, hashes, index, roots, sims, members, meta, h, k);
      assert Grouped(hashes, sims, members, meta, found, r);
    }
  }

  lemma NothingMentioned(pairs: seq<Pair>)
    requires pairs == []
    ensures forall h :: !Mentions(pairs, h)
  {
  }

  lemma IndexedKnown(pairs: seq<Pair>, hashes: seq<string>, index: map<string, nat>, roots: seq<nat>)
    requires Indexed(pairs, hashes, index) && Partition(pairs, hashes, roots)
    ensures Known(pairs, index, roots)
  {
    forall i | 0 <= i < |pairs| ensures pairs[i].a in index && index[pairs[i].a] < |roots| {
      assert Mentions(pairs, pairs[i].a);
    }
  }

  /** Two connected hashes with metadata appear in the group of their common root. */
  lemma TwoShown(pairs: seq<Pair>, hashes: seq<string>, index: map<string, nat>, roots: seq<nat>, sims: map<nat, real>,
                 members: map<nat, seq<nat>>, meta: set<string>, h: string, k: string) returns (r: nat)
    requires Analysed(pairs, hashes, index, roots, sims, members)
    requires h != k && h in meta && k in meta && Mentions(pairs, h) && Mentions(pairs, k) && Connected(pairs, h, k)
    ensures r in members && Below(members[r], |hashes|)
    ensures var images := Images(members[r], hashes, meta); h in images && k in images && |images| >= 2
  {
    hide Connected, Mentions, TopSims, Images;
    r := roots[index[h]];
    assert roots[index[k]] == r;
    RootMembers(pairs, hashes, index, roots, sims, members, r);
    var p :| 0 <= p < |members[r]| && members[r][p] == index[h];
    var q :| 0 <= q < |members[r]| && members[r][q] == index[k];
    ImagesHas(members[r], hashes, meta, p);
    ImagesHas(members[r], hashes, meta, q);
    var images := Images(members[r], hashes, meta);
    var a :| 0 <= a < |images| && images[a] == h;
    var b :| 0 <= b < |images| && images[b] == k;
  }
}
