/** An orphan sweep of one node: every copy no row names is deleted, and nothing else. */
module RebalanceSweep {
  import opened ByteOrder
  import opened Rebalance
  import opened RebalanceRuns

  ghost predicate Distinct(hs: seq<Hash>) {
    forall i, j :: 0 <= i < j < |hs| ==> hs[i] != hs[j]
  }

  function SetOf(hs: seq<Hash>): set<Hash> {
    set h | h in hs
  }

  function Copies(node: Node, hs: seq<Hash>): set<(Node, Hash)> {
    set h | h in hs :: (node, h)
  }

  /** One delete after the other. */
  function Deletes(t: Task, hs: seq<Hash>): seq<Event> {
    if hs == [] then [] else [DeleteOrphan(t, hs[0], Lands)] + Deletes(t, hs[1..])
  }

  /** The sweep of `node` has `hs` still to delete. */
  predicate Sweeping(s: State, t: Task, node: Node, hs: seq<Hash>) {
    t in s.sweeps && s.sweeps[t] == Doomed(node, SetOf(hs))
  }

  /** The state once these copies have been deleted. */
  function Purged(s: State, t: Task, node: Node, hs: seq<Hash>): State {
    s.(stores := s.stores - Copies(node, hs), sweeps := s.sweeps[t := Doomed(node, {})])
  }

  lemma OneDelete(s: State, t: Task, node: Node, hs: seq<Hash>, hash: bytes -> Hash) returns (m: State)
    requires Sweeping(s, t, node, hs) && hs != [] && Distinct(hs)
    ensures Runs(s, [DeleteOrphan(t, hs[0], Lands)], m, true, hash)
    ensures Sweeping(m, t, node, hs[1..]) && Purged(m, t, node, hs[1..]) == Purged(s, t, node, hs)
  {
    hide Runs;
    var e := DeleteOrphan(t, hs[0], Lands);
    m := Next(s, e, hash);
    RunsOne(s, e, true, hash);
    assert SetOf(hs) - {hs[0]} == SetOf(hs[1..]) by {
      Rest(hs);
    }
    assert Copies(node, hs) == {(node, hs[0])} + Copies(node, hs[1..]) by {
      assert hs == [hs[0]] + hs[1..];
    }
    assert s.stores - {(node, hs[0])} - Copies(node, hs[1..]) == s.stores - Copies(node, hs);
    assert m.sweeps[t := Doomed(node, {})] == s.sweeps[t := Doomed(node, {})];
  }

  lemma Rest(hs: seq<Hash>)
    requires hs != [] && Distinct(hs)
    ensures SetOf(hs) - {hs[0]} == SetOf(hs[1..])
  {
    assert hs == [hs[0]] + hs[1..];
    forall h | h in hs[1..] ensures h != hs[0] {
      var j :| 0 <= j < |hs[1..]| && hs[1..][j] == h;
      assert hs[j + 1] == h;
    }
  }

  lemma {:induction false} DeletesRun(s: State, t: Task, node: Node, hs: seq<Hash>, hash: bytes -> Hash)
    requires Sweeping(s, t, node, hs) && Distinct(hs)
    ensures Runs(s, Deletes(t, hs), Purged(s, t, node, hs), true, hash)
    decreases |hs|
  {
    hide Runs, Sweeping, Purged;
    if hs == [] {
      NothingPurged(s, t, node);
      RunsNone(s, true, hash);
    } else {
      var m := OneDelete(s, t, node, hs, hash);
      assert Distinct(hs[1..]);
      DeletesRun(m, t, node, hs[1..], hash);
      RunsOn(s, [DeleteOrphan(t, hs[0], Lands)], m, Deletes(t, hs[1..]), Purged(s, t, node, hs), true, hash);
    }
  }

  lemma NothingPurged(s: State, t: Task, node: Node)
    requires Sweeping(s, t, node, [])
    ensures Purged(s, t, node, []) == s
  {
    assert SetOf([]) == {} && Copies(node, []) == {};
    assert s.stores - {} == s.stores && s.sweeps[t := Doomed(node, {})] == s.sweeps;
  }

  /** The whole sweep: of the copies listed on the node, exactly those whose hashes are recorded nowhere go, whatever
      their number. */
  lemma SweepRuns(s: State, t: Task, node: Node, listed: set<Hash>, hs: seq<Hash>, hash: bytes -> Hash)
    requires t !in s.sweeps && forall h :: h in listed ==> (node, h) in s.stores
    requires Distinct(hs) && forall h :: h in hs <==> h in listed && h !in Recorded(s)
    ensures Runs(s, [List(t, node, listed), Query(t)] + Deletes(t, hs) + [Finish(t)],
                 s.(stores := s.stores - Copies(node, hs)), true, hash)
  {
    hide Runs, Deletes, Purged, Sweeping, Recorded;
    var list, query := List(t, node, listed), Query(t);
    var m := SweepBegins(s, t, node, listed, hs, hash);
    DeletesRun(m, t, node, hs, hash);
    RunsOn(s, [list, query], m, Deletes(t, hs), Purged(m, t, node, hs), true, hash);
    SweepEnds(s, m, t, node, hs, hash);
    RunsOn(s, [list, query] + Deletes(t, hs), Purged(m, t, node, hs), [Finish(t)],
      s.(stores := s.stores - Copies(node, hs)), true, hash);
  }

  lemma SweepBegins(s: State, t: Task, node: Node, listed: set<Hash>, hs: seq<Hash>, hash: bytes -> Hash)
    returns (m: State)
    requires t !in s.sweeps && forall h :: h in listed ==> (node, h) in s.stores
    requires forall h :: h in hs <==> h in listed && h !in Recorded(s)
    ensures Runs(s, [List(t, node, listed), Query(t)], m, true, hash)
    ensures Sweeping(m, t, node, hs) && m == s.(sweeps := s.sweeps[t := Doomed(node, SetOf(hs))])
  {
    hide Runs;
    var list, query := List(t, node, listed), Query(t);
    var s1 := Next(s, list, hash);
    m := Next(s1, query, hash);
    RunsOne(s, list, true, hash);
    RunsOne(s1, query, true, hash);
    RunsOn(s, [list], s1, [query], m, true, hash);
    assert [list] + [query] == [list, query];
    assert listed - Recorded(s1) == SetOf(hs);
    assert m.sweeps == s.sweeps[t := Doomed(node, SetOf(hs))];
  }

  lemma SweepEnds(s: State, m: State, t: Task, node: Node, hs: seq<Hash>, hash: bytes -> Hash)
    requires t !in s.sweeps && m == s.(sweeps := s.sweeps[t := Doomed(node, SetOf(hs))])
    ensures Runs(Purged(m, t, node, hs), [Finish(t)], s.(stores := s.stores - Copies(node, hs)), true, hash)
  {
    hide Runs;
    var p := Purged(m, t, node, hs);
    assert p.sweeps - {t} == s.sweeps;
    RunsOne(p, Finish(t), true, hash);
  }
}
