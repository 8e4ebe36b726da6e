/** What a failing step of a migration, a dropped task and a restart leave behind. */
module RebalanceFailures {
  import opened ByteOrder
  import opened Rebalance
  import opened RebalanceRuns

  // ----- failing steps -----

  /** An upload that arrives unacknowledged leaves its copy behind, and the cycle goes on to the next shard. */
  lemma AnswerLost(s: State, t: Task, node: Node, h: Hash, hash: bytes -> Hash)
    requires t in s.cycles && s.cycles[t].jobs != [] && s.cycles[t].phase.Fetched?
    ensures var s', c := Next(s, Upload(t, false, true), hash), s.cycles[t];
            && s'.cycles == s.cycles[t := Cycle(c.jobs[1..], Ready)] && s'.catalog == s.catalog
            && ((node, h) in s'.stores
                <==> (node, h) in s.stores || (node == c.phase.target && h == hash(c.phase.data)))
            && ((node, h) in s'.stores ==>
                 s'.stores[(node, h)] == if node == c.phase.target && h == hash(c.phase.data) then c.phase.data
                   else s.stores[(node, h)])
  {
  }

  /** When the update of a row fails the rest of the file is left as it is: no copy is touched, and no row but perhaps
      that one. */
  lemma UpdateFails(s: State, t: Task, applied: bool, id: RowId, hash: bytes -> Hash)
    requires t in s.cycles && s.cycles[t].jobs != [] && s.cycles[t].phase.Uploaded? && id in s.catalog
    ensures var s', c := Next(s, Update(t, false, applied), hash), s.cycles[t];
            && s'.cycles == s.cycles[t := Cycle([], Ready)]
            && s'.stores == s.stores && s'.inFlight == s.inFlight && s'.catalog.Keys == s.catalog.Keys
            && s'.catalog[id] == if applied && id == c.jobs[0].id then Row(c.phase.target, hash(c.phase.data))
                 else s.catalog[id]
  {
    var s', c := Next(s, Update(t, false, applied), hash), s.cycles[t];
    assert s'.catalog.Keys == s.catalog.Keys by {
      assert forall k :: k in s'.catalog <==> k in s.catalog;
    }
  }

  /** A delete of the old copy that fails, or is still on its way, leaves it where it is; the cycle goes on. */
  lemma OldCopyLeft(s: State, t: Task, fate: Fate, hash: bytes -> Hash)
    requires t in s.cycles && s.cycles[t].jobs != [] && s.cycles[t].phase.Moved? && !fate.Lands?
    ensures var s', c := Next(s, DeleteOld(t, fate), hash), s.cycles[t];
            && s'.cycles == s.cycles[t := Cycle(c.jobs[1..], Ready)]
            && s'.stores == s.stores && s'.catalog == s.catalog
            && s'.inFlight == s.inFlight + if fate.Late? then {(c.jobs[0].row.node, c.jobs[0].row.hash)} else {}
  {
  }

  // ----- the flag -----

  /** Dropping the one task of a cycle leaves the flag set with nobody to release it. */
  lemma DroppedTaskSticks(s: State, t: Task, hash: bytes -> Hash)
    requires AtMostOneCycle(s) && t in s.cycles
    ensures Stuck(Next(s, Abandon(t), hash)) && Next(s, Abandon(t), hash).catalog == s.catalog
  {
    var s' := Next(s, Abandon(t), hash);
    assert forall u :: u !in s'.cycles;
  }

  ghost predicate NoCrash(events: seq<Event>) {
    forall i :: 0 <= i < |events| ==> !events[i].Crash?
  }

  lemma StuckStep(s: State, e: Event, hash: bytes -> Hash)
    requires Stuck(s) && Enabled(s, e, hash) && !e.Crash? && !e.Commit?
    ensures Stuck(Next(s, e, hash)) && Next(s, e, hash).catalog == s.catalog
  {
  }

  /** From then on no cycle starts and no row moves until the next crash, whatever else happens. */
  lemma {:induction false} StuckTillCrash(
      s: State, events: seq<Event>, s': State, calm: bool, hash: bytes -> Hash)
    requires Stuck(s) && Runs(s, events, s', calm, hash) && NoCrash(events)
    ensures Stuck(s') && s'.catalog == s.catalog
    decreases |events|
  {
    hide Next, Enabled, Calm, Stuck;
    if events != [] {
      StuckStep(s, events[0], hash);
      StuckTillCrash(Next(s, events[0], hash), events[1..], s', calm, hash);
    }
  }

  /** A crash loses tasks and flag and nothing else, so the next cycle can start. */
  lemma CrashFrees(s: State, t: Task, hash: bytes -> Hash)
    ensures var m := Next(s, Crash, hash);
            && Quiet(m) && m.catalog == s.catalog && m.stores == s.stores && m.inFlight == s.inFlight
            && m.backups == s.backups
            && Enabled(m, Begin(t), hash) && Next(m, Begin(t), hash).cycles == map[t := Cycle([], Ready)]
            && Next(m, Begin(t), hash).active
  {
  }
}
