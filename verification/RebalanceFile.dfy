/** A rebalance of one file: every shard of it is dealt with, whatever becomes of the others. */
module RebalanceFile {
  import opened ByteOrder
  import opened Rebalance
  import opened RebalanceRuns

  /** What becomes of one shard of the file. */
  datatype Course =
    | InPlace                                 // already on the right node
    | Corrupt(target: Node, data: bytes)      // the bytes obtained do not match the record
    | Unsent(target: Node, data: bytes)       // the new node does not acknowledge them
    | Moves(target: Node, data: bytes)

  predicate Possible(job: Job, c: Course, hash: bytes -> Hash) {
    match c
    case InPlace => true
    case Corrupt(target, data) => hash(data) != job.row.hash
    case Unsent(target, data) => target != job.row.node && hash(data) == job.row.hash
    case Moves(target, data) => target != job.row.node && hash(data) == job.row.hash
  }

  function JobEvents(t: Task, job: Job, c: Course): seq<Event> {
    match c
    case InPlace => [Fetch(t, job.row.node, [])]
    case Corrupt(target, data) => [Fetch(t, target, data)]
    case Unsent(target, data) => [Fetch(t, target, data), Upload(t, false, false)]
    case Moves(target, data) => [Fetch(t, target, data), Upload(t, true, true), Update(t, true, true),
        DeleteOld(t, Lands)]
  }

  function FileEvents(t: Task, jobs: seq<Job>, cs: seq<Course>): seq<Event>
    requires |cs| == |jobs|
  {
    if jobs == [] then [] else JobEvents(t, jobs[0], cs[0]) + FileEvents(t, jobs[1..], cs[1..])
  }

  /** Catalog and copies after one shard. */
  function AfterJob(s: State, job: Job, c: Course): State {
    if c.Moves? then
      s.(catalog := s.catalog[job.id := Row(c.target, job.row.hash)],
         stores := s.stores[(c.target, job.row.hash) := c.data] - {(job.row.node, job.row.hash)})
    else s
  }

  function AfterFile(s: State, jobs: seq<Job>, cs: seq<Course>): State
    requires |cs| == |jobs|
    decreases |jobs|
  {
    if jobs == [] then s else AfterFile(AfterJob(s, jobs[0], cs[0]), jobs[1..], cs[1..])
  }

  ghost predicate AllPossible(s: State, jobs: seq<Job>, cs: seq<Course>, hash: bytes -> Hash) {
    && |cs| == |jobs|
    && forall i :: 0 <= i < |jobs| ==>
         Possible(jobs[i], cs[i], hash) && (cs[i].Moves? ==> (cs[i].target, jobs[i].row.hash) !in s.inFlight)
  }

  /** The task is left with the remaining shards. */
  function WithJobs(s: State, t: Task, jobs: seq<Job>): State {
    s.(cycles := s.cycles[t := Cycle(jobs, Ready)])
  }

  lemma OneEvent(s: State, e: Event, s': State, hash: bytes -> Hash)
    requires Enabled(s, e, hash) && !e.Commit? && Calm(s, e, hash) && s' == Next(s, e, hash)
    ensures Runs(s, [e], s', true, hash)
  {
    hide Runs, Next, Enabled, Calm;
    RunsOne(s, e, true, hash);
  }

  lemma JobRuns(s: State, t: Task, jobs: seq<Job>, c: Course, hash: bytes -> Hash)
    requires t in s.cycles && s.cycles[t] == Cycle(jobs, Ready) && jobs != []
    requires Possible(jobs[0], c, hash) && jobs[0].id in s.catalog
    requires c.Moves? ==> (c.target, jobs[0].row.hash) !in s.inFlight
    ensures Runs(s, JobEvents(t, jobs[0], c), WithJobs(AfterJob(s, jobs[0], c), t, jobs[1..]), true, hash)
  {
    hide Runs;
    var es, end := JobEvents(t, jobs[0], c), WithJobs(AfterJob(s, jobs[0], c), t, jobs[1..]);
    match c
    case InPlace => OneEvent(s, es[0], end, hash);
    case Corrupt(_, _) => OneEvent(s, es[0], end, hash);
    case Unsent(target, data) =>
      var m := s.(cycles := s.cycles[t := Cycle(jobs, Fetched(target, data))]);
      OneEvent(s, es[0], m, hash);
      assert m.cycles[t := Cycle(jobs[1..], Ready)] == s.cycles[t := Cycle(jobs[1..], Ready)];
      OneEvent(m, es[1], end, hash);
      RunsOn(s, [es[0]], m, [es[1]], end, true, hash);
      assert [es[0]] + [es[1]] == es;
    case Moves(_, _) => MoveRuns(s, t, jobs, c, hash);
  }

  lemma MoveRuns(s: State, t: Task, jobs: seq<Job>, c: Course, hash: bytes -> Hash)
    requires t in s.cycles && s.cycles[t] == Cycle(jobs, Ready) && jobs != [] && c.Moves?
    requires Possible(jobs[0], c, hash) && jobs[0].id in s.catalog && (c.target, jobs[0].row.hash) !in s.inFlight
    ensures Runs(s, JobEvents(t, jobs[0], c), WithJobs(AfterJob(s, jobs[0], c), t, jobs[1..]), true, hash)
  {
    hide Runs;
    var es, job := JobEvents(t, jobs[0], c), jobs[0];
    var copy := (c.target, job.row.hash);
    var s1 := s.(cycles := s.cycles[t := Cycle(jobs, Fetched(c.target, c.data))]);
    var s2 := s.(stores := s.stores[copy := c.data], cycles := s.cycles[t := Cycle(jobs, Uploaded(c.target, c.data))]);
    OneEvent(s, es[0], s1, hash);
    assert s1.cycles[t := Cycle(jobs, Uploaded(c.target, c.data))] == s2.cycles;
    OneEvent(s1, es[1], s2, hash);
    RunsOn(s, [es[0]], s1, [es[1]], s2, true, hash);
    var s3 := s2.(catalog := s.catalog[job.id := Row(c.target, job.row.hash)],
                  cycles := s.cycles[t := Cycle(jobs, Moved(c.target))]);
    MoveEnds(s, s2, s3, t, jobs, c, hash);
    RunsOn(s, [es[0]] + [es[1]], s2, [es[2], es[3]], WithJobs(AfterJob(s, job, c), t, jobs[1..]), true, hash);
    assert [es[0]] + [es[1]] + [es[2], es[3]] == es;
  }

  lemma MoveEnds(s: State, s2: State, s3: State, t: Task, jobs: seq<Job>, c: Course, hash: bytes -> Hash)
    requires t in s.cycles && jobs != [] && c.Moves? && Possible(jobs[0], c, hash) && jobs[0].id in s.catalog
    requires s2 == s.(stores := s.stores[(c.target, jobs[0].row.hash) := c.data],
                      cycles := s.cycles[t := Cycle(jobs, Uploaded(c.target, c.data))])
    requires s3 == s2.(catalog := s.catalog[jobs[0].id := Row(c.target, jobs[0].row.hash)],
                       cycles := s.cycles[t := Cycle(jobs, Moved(c.target))])
    ensures Runs(s2, [Update(t, true, true), DeleteOld(t, Lands)], WithJobs(AfterJob(s, jobs[0], c), t, jobs[1..]),
        true, hash)
  {
    hide Runs, Next, Enabled, Calm;
    var update, delete, end := Update(t, true, true), DeleteOld(t, Lands),
        WithJobs(AfterJob(s, jobs[0], c), t, jobs[1..]);
    RowUpdated(s, s2, s3, t, jobs, c, hash);
    OneEvent(s2, update, s3, hash);
    OldCopyDeleted(s, s3, t, jobs, c, hash);
    OneEvent(s3, delete, end, hash);
    RunsOn(s2, [update], s3, [delete], end, true, hash);
    assert [update] + [delete] == [update, delete];
  }

  lemma RowUpdated(s: State, s2: State, s3: State, t: Task, jobs: seq<Job>, c: Course, hash: bytes -> Hash)
    requires jobs != [] && c.Moves? && Possible(jobs[0], c, hash) && jobs[0].id in s2.catalog
    requires s2.catalog == s.catalog && s2.cycles == s.cycles[t := Cycle(jobs, Uploaded(c.target, c.data))]
    requires s3 == s2.(catalog := s.catalog[jobs[0].id := Row(c.target, jobs[0].row.hash)],
                       cycles := s.cycles[t := Cycle(jobs, Moved(c.target))])
    ensures Enabled(s2, Update(t, true, true), hash) && Calm(s2, Update(t, true, true), hash)
    ensures s3 == Next(s2, Update(t, true, true), hash)
  {
    assert s2.cycles[t := Cycle(jobs, Moved(c.target))] == s3.cycles;
  }

  lemma OldCopyDeleted(s: State, s3: State, t: Task, jobs: seq<Job>, c: Course, hash: bytes -> Hash)
    requires jobs != [] && c.Moves?
    requires s3 == s.(catalog := s.catalog[jobs[0].id := Row(c.target, jobs[0].row.hash)],
                      stores := s.stores[(c.target, jobs[0].row.hash) := c.data],
                      cycles := s.cycles[t := Cycle(jobs, Moved(c.target))])
    ensures Enabled(s3, DeleteOld(t, Lands), hash) && Calm(s3, DeleteOld(t, Lands), hash)
    ensures WithJobs(AfterJob(s, jobs[0], c), t, jobs[1..]) == Next(s3, DeleteOld(t, Lands), hash)
  {
    assert s3.cycles[t := Cycle(jobs[1..], Ready)] == s.cycles[t := Cycle(jobs[1..], Ready)];
  }

  /** One shard after the other, each by its own course. */
  lemma {:induction false} JobsRun(s: State, t: Task, jobs: seq<Job>, cs: seq<Course>, hash: bytes -> Hash)
    requires t in s.cycles && s.cycles[t] == Cycle(jobs, Ready) && AllPossible(s, jobs, cs, hash)
    requires forall i :: 0 <= i < |jobs| ==> jobs[i].id in s.catalog
    ensures Runs(s, FileEvents(t, jobs, cs), WithJobs(AfterFile(s, jobs, cs), t, []), true, hash)
    decreases |jobs|
  {
    hide Runs, Possible, JobEvents;
    if jobs == [] {
      assert s.cycles[t := Cycle([], Ready)] == s.cycles;
      RunsNone(s, true, hash);
    } else {
      var m := WithJobs(AfterJob(s, jobs[0], cs[0]), t, jobs[1..]);
      JobRuns(s, t, jobs, cs[0], hash);
      JobsRun(m, t, jobs[1..], cs[1..], hash);
      AfterWithJobs(AfterJob(s, jobs[0], cs[0]), t, jobs[1..], jobs[1..], cs[1..]);
      RunsOn(s, JobEvents(t, jobs[0], cs[0]), m, FileEvents(t, jobs[1..], cs[1..]),
        WithJobs(AfterFile(m, jobs[1..], cs[1..]), t, []), true, hash);
    }
  }

  /** The task's own state does not matter to what becomes of catalog and copies. */
  lemma {:induction false} AfterWithJobs(s: State, t: Task, left: seq<Job>, jobs: seq<Job>, cs: seq<Course>)
    requires |cs| == |jobs|
    ensures WithJobs(AfterFile(WithJobs(s, t, left), jobs, cs), t, []) == WithJobs(AfterFile(s, jobs, cs), t, [])
    decreases |jobs|
  {
    if jobs == [] {
      assert s.cycles[t := Cycle(left, Ready)][t := Cycle([], Ready)] == s.cycles[t := Cycle([], Ready)];
    } else {
      AfterWithJobs(AfterJob(s, jobs[0], cs[0]), t, left, jobs[1..], cs[1..]);
      assert AfterJob(WithJobs(s, t, left), jobs[0], cs[0]) == WithJobs(AfterJob(s, jobs[0], cs[0]), t, left);
    }
  }

  /** A cycle over one file, from the flag to the flag: it goes on to the next shard whatever becomes of one. */
  lemma CycleRuns(s: State, jobs: seq<Job>, cs: seq<Course>, hash: bytes -> Hash)
    requires Quiet(s) && IsSnapshot(s, jobs) && AllPossible(s, jobs, cs, hash)
    ensures Runs(s, [Begin(0), Load(0, jobs)] + FileEvents(0, jobs, cs) + [End(0)], AfterFile(s, jobs, cs), true, hash)
  {
    hide Runs, Possible, FileEvents;
    var begin, load, end := Begin(0), Load(0, jobs), End(0);
    var s1 := Next(s, begin, hash);
    var s2 := Next(s1, load, hash);
    OneEvent(s, begin, s1, hash);
    OneEvent(s1, load, s2, hash);
    RunsOn(s, [begin], s1, [load], s2, true, hash);
    assert [begin] + [load] == [begin, load];
    JobsRun(s2, 0, jobs, cs, hash);
    var s3 := WithJobs(AfterFile(s2, jobs, cs), 0, []);
    RunsOn(s, [begin, load], s2, FileEvents(0, jobs, cs), s3, true, hash);
    AfterFrame(s, s2, jobs, cs);
    assert s3.cycles == map[0 := Cycle([], Ready)] by {
      AfterKeepsTasks(s2, jobs, cs);
    }
    assert s3.cycles - {0} == map[];
    OneEvent(s3, end, AfterFile(s, jobs, cs), hash);
    RunsOn(s, [begin, load] + FileEvents(0, jobs, cs), s3, [end], AfterFile(s, jobs, cs), true, hash);
  }

  lemma {:induction false} AfterKeepsTasks(s: State, jobs: seq<Job>, cs: seq<Course>)
    requires |cs| == |jobs|
    ensures var s' := AfterFile(s, jobs, cs);
            && s'.cycles == s.cycles && s'.active == s.active && s'.sweeps == s.sweeps
            && s'.inFlight == s.inFlight && s'.backups == s.backups
    decreases |jobs|
  {
    if jobs != [] {
      AfterKeepsTasks(AfterJob(s, jobs[0], cs[0]), jobs[1..], cs[1..]);
    }
  }

  /** States that agree on catalog and copies agree on them afterwards. */
  lemma {:induction false} AfterFrame(s: State, m: State, jobs: seq<Job>, cs: seq<Course>)
    requires |cs| == |jobs| && m == s.(active := m.active, cycles := m.cycles)
    ensures AfterFile(m, jobs, cs) == AfterFile(s, jobs, cs).(active := m.active, cycles := m.cycles)
    ensures AfterFile(s, jobs, cs).cycles == s.cycles && AfterFile(s, jobs, cs).active == s.active
    decreases |jobs|
  {
    if jobs != [] {
      AfterFrame(AfterJob(s, jobs[0], cs[0]), AfterJob(m, jobs[0], cs[0]), jobs[1..], cs[1..]);
    }
  }

  // ----- where everything is afterwards -----

  /** Where a shard is after its course: at its target, with the old copy gone, or where it was. */
  ghost predicate Settled(s: State, s': State, job: Job, c: Course) {
    if c.Moves? then
      && job.id in s'.catalog && s'.catalog[job.id] == Row(c.target, job.row.hash)
      && (c.target, job.row.hash) in s'.stores && s'.stores[(c.target, job.row.hash)] == c.data
      && (job.row.node, job.row.hash) !in s'.stores
    else
      && job.id in s'.catalog && s'.catalog[job.id] == job.row
      && forall node :: (node, job.row.hash) in s.stores ==>
           (node, job.row.hash) in s'.stores && s'.stores[(node, job.row.hash)] == s.stores[(node, job.row.hash)]
  }

  ghost predicate DistinctJobs(jobs: seq<Job>) {
    forall i, j :: 0 <= i < j < |jobs| ==> jobs[i].id != jobs[j].id && jobs[i].row.hash != jobs[j].row.hash
  }

  lemma {:induction false} OtherRowStays(s: State, jobs: seq<Job>, cs: seq<Course>, id: RowId)
    requires |cs| == |jobs| && forall i :: 0 <= i < |jobs| ==> jobs[i].id != id
    ensures var s' := AfterFile(s, jobs, cs);
            (id in s'.catalog <==> id in s.catalog) && (id in s.catalog ==> s'.catalog[id] == s.catalog[id])
    decreases |jobs|
  {
    if jobs != [] {
      OtherRowStays(AfterJob(s, jobs[0], cs[0]), jobs[1..], cs[1..], id);
    }
  }

  lemma {:induction false} OtherCopyStays(s: State, jobs: seq<Job>, cs: seq<Course>, k: (Node, Hash))
    requires |cs| == |jobs| && forall i :: 0 <= i < |jobs| ==> jobs[i].row.hash != k.1
    ensures var s' := AfterFile(s, jobs, cs);
            (k in s'.stores <==> k in s.stores) && (k in s.stores ==> s'.stores[k] == s.stores[k])
    decreases |jobs|
  {
    if jobs != [] {
      OtherCopyStays(AfterJob(s, jobs[0], cs[0]), jobs[1..], cs[1..], k);
    }
  }

  lemma FirstSettled(s: State, job: Job, c: Course, hash: bytes -> Hash)
    requires Possible(job, c, hash) && job.id in s.catalog && s.catalog[job.id] == job.row
    ensures Settled(s, AfterJob(s, job, c), job, c)
  {
  }

  /** What happens to other rows and hashes later does not unsettle a shard. */
  lemma StaysSettled(s: State, m: State, s': State, job: Job, c: Course)
    requires Settled(s, m, job, c) && job.id in s'.catalog && s'.catalog[job.id] == m.catalog[job.id]
    requires forall node :: (node, job.row.hash) in s'.stores <==> (node, job.row.hash) in m.stores
    requires forall node :: (node, job.row.hash) in m.stores ==>
               s'.stores[(node, job.row.hash)] == m.stores[(node, job.row.hash)]
    ensures Settled(s, s', job, c)
  {
  }

  /** Nor does what happened to other hashes before. */
  lemma SettledBefore(s: State, m: State, s': State, job: Job, c: Course)
    requires Settled(m, s', job, c)
    requires forall node :: (node, job.row.hash) in s.stores ==>
               (node, job.row.hash) in m.stores && m.stores[(node, job.row.hash)] == s.stores[(node, job.row.hash)]
    ensures Settled(s, s', job, c)
  {
  }

  lemma SnapshotLeft(s: State, jobs: seq<Job>, c: Course)
    requires jobs != [] && IsSnapshot(s, jobs)
    ensures IsSnapshot(AfterJob(s, jobs[0], c), jobs[1..])
  {
  }

  /** Every shard of the file ends up where its own course takes it. */
  lemma {:induction false} FileSettled(s: State, jobs: seq<Job>, cs: seq<Course>, i: nat, hash: bytes -> Hash)
    requires IsSnapshot(s, jobs) && DistinctJobs(jobs) && AllPossible(s, jobs, cs, hash) && i < |jobs|
    ensures Settled(s, AfterFile(s, jobs, cs), jobs[i], cs[i])
    decreases |jobs|
  {
    hide Settled, Possible;
    var m, s' := AfterJob(s, jobs[0], cs[0]), AfterFile(s, jobs, cs);
    if i == 0 {
      var job := jobs[0];
      FirstSettled(s, job, cs[0], hash);
      OtherRowStays(m, jobs[1..], cs[1..], job.id);
      forall node
        ensures (node, job.row.hash) in s'.stores <==> (node, job.row.hash) in m.stores
        ensures (node, job.row.hash) in m.stores ==>
                  s'.stores[(node, job.row.hash)] == m.stores[(node, job.row.hash)]
      {
        OtherCopyStays(m, jobs[1..], cs[1..], (node, job.row.hash));
      }
      StaysSettled(s, m, s', job, cs[0]);
    } else {
      SnapshotLeft(s, jobs, cs[0]);
      FileSettled(m, jobs[1..], cs[1..], i - 1, hash);
      SettledBefore(s, m, s', jobs[i], cs[i]);
    }
  }

  /** The course of a file none of whose shards fails. */
  function Courses(jobs: seq<Job>, targets: seq<Node>, datas: seq<bytes>): seq<Course>
    requires |targets| == |datas| == |jobs|
  {
    seq(|jobs|, i requires 0 <= i < |jobs| =>
      if targets[i] == jobs[i].row.node then InPlace else Moves(targets[i], datas[i]))
  }

  /** If every misplaced shard is obtained, acknowledged and recorded, the cycle leaves the whole file in place: every
      row at its target, which holds the bytes, and every old copy gone. */
  lemma FileMigrated(s: State, jobs: seq<Job>, targets: seq<Node>, datas: seq<bytes>, hash: bytes -> Hash)
    requires Quiet(s) && IsSnapshot(s, jobs) && DistinctJobs(jobs) && |targets| == |datas| == |jobs|
    requires forall i :: 0 <= i < |jobs| ==>
               hash(datas[i]) == jobs[i].row.hash && (targets[i], jobs[i].row.hash) !in s.inFlight
    ensures var cs := Courses(jobs, targets, datas);
            var s' := AfterFile(s, jobs, cs);
            && Runs(s, [Begin(0), Load(0, jobs)] + FileEvents(0, jobs, cs) + [End(0)], s', true, hash)
            && forall i :: 0 <= i < |jobs| ==>
                 && jobs[i].id in s'.catalog && s'.catalog[jobs[i].id] == Row(targets[i], jobs[i].row.hash)
                 && (targets[i] != jobs[i].row.node ==>
                       && (targets[i], jobs[i].row.hash) in s'.stores
                       && s'.stores[(targets[i], jobs[i].row.hash)] == datas[i]
                       && (jobs[i].row.node, jobs[i].row.hash) !in s'.stores)
  {
    hide Runs, Settled;
    var cs := Courses(jobs, targets, datas);
    CycleRuns(s, jobs, cs, hash);
    var s' := AfterFile(s, jobs, cs);
    forall i | 0 <= i < |jobs| ensures Settled(s, s', jobs[i], cs[i]) {
      FileSettled(s, jobs, cs, i, hash);
    }
    Unfold(s, s', jobs, cs);
  }

  lemma Unfold(s: State, s': State, jobs: seq<Job>, cs: seq<Course>)
    requires |cs| == |jobs| && forall i :: 0 <= i < |jobs| ==> Settled(s, s', jobs[i], cs[i])
    ensures forall i :: 0 <= i < |jobs| ==>
              && jobs[i].id in s'.catalog
              && s'.catalog[jobs[i].id] == if cs[i].Moves? then Row(cs[i].target, jobs[i].row.hash) else jobs[i].row
    ensures forall i :: 0 <= i < |jobs| && cs[i].Moves? ==>
              && (cs[i].target, jobs[i].row.hash) in s'.stores
              && s'.stores[(cs[i].target, jobs[i].row.hash)] == cs[i].data
              && (jobs[i].row.node, jobs[i].row.hash) !in s'.stores
  {
  }
}
