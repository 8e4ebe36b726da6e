/** Whole runs of the protocol: when every catalogued shard survives, exactly, and what loses it otherwise. */
module RebalanceRuns {
  import opened ByteOrder
  import opened Rebalance

  // ----- runs -----

  /** The events take `s` to `s'`. */
  ghost predicate Leads(s: State, events: seq<Event>, s': State, hash: bytes -> Hash)
    decreases |events|
  {
    if events == [] then s' == s
    else Enabled(s, events[0], hash) && Leads(Next(s, events[0], hash), events[1..], s', hash)
  }

  /** The same for runs in which new rows are inserted in time and no delete is overtaken. */
  ghost predicate LeadsTimely(s: State, events: seq<Event>, s': State, hash: bytes -> Hash)
    decreases |events|
  {
    if events == [] then s' == s
    else
      && Enabled(s, events[0], hash) && Timely(s, events[0], hash) && Calm(s, events[0], hash)
      && LeadsTimely(Next(s, events[0], hash), events[1..], s', hash)
  }

  /** The same for runs of cycles and sweeps alone, without new rows, in which no delete is overtaken if `calm`. */
  ghost predicate Runs(s: State, events: seq<Event>, s': State, calm: bool, hash: bytes -> Hash)
    decreases |events|
  {
    if events == [] then s' == s
    else
      && Enabled(s, events[0], hash) && !events[0].Commit? && (calm ==> Calm(s, events[0], hash))
      && Runs(Next(s, events[0], hash), events[1..], s', calm, hash)
  }

  /** No task is under way and the flag is free. */
  ghost predicate Quiet(s: State) {
    s.cycles == map[] && s.sweeps == map[] && !s.active
  }

  lemma {:induction false} InvKept(s: State, events: seq<Event>, s': State, hash: bytes -> Hash)
    requires Inv(s, hash) && LeadsTimely(s, events, s', hash)
    ensures Inv(s', hash) && SameHashes(s, s')
    decreases |events|
  {
    hide Inv, Next, Enabled, Timely, Calm;
    if events != [] {
      StepKeeps(s, events[0], hash);
      InvKept(Next(s, events[0], hash), events[1..], s', hash);
    }
  }

  /** Over every run of cycles, sweeps and timely uploads, with failures, late deletes and crashes anywhere, starting
      from a safe catalog with distinct hashes: every row's node holds the recorded bytes, recorded hashes never change,
      and at most one cycle is active. */
  lemma RunsAreSafe(s: State, events: seq<Event>, s': State, hash: bytes -> Hash)
    requires Quiet(s) && Safe(s, hash) && Spared(s) && DistinctHashes(s) && LeadsTimely(s, events, s', hash)
    ensures Safe(s', hash) && AtMostOneCycle(s') && SameHashes(s, s') && DistinctHashes(s')
  {
    assert Inv(s, hash);
    InvKept(s, events, s', hash);
  }

  lemma {:induction false} RunsTimely(s: State, events: seq<Event>, s': State, hash: bytes -> Hash)
    requires Runs(s, events, s', true, hash)
    ensures LeadsTimely(s, events, s', hash)
    decreases |events|
  {
    hide Next, Enabled, Calm;
    if events != [] {
      RunsTimely(Next(s, events[0], hash), events[1..], s', hash);
    }
  }

  /** From a state that satisfies the invariant, cycles and sweeps alone never lose a shard while deletes are not
      overtaken. */
  lemma CalmRunsSafe(s: State, events: seq<Event>, s': State, hash: bytes -> Hash)
    requires Inv(s, hash) && Runs(s, events, s', true, hash)
    ensures Safe(s', hash)
  {
    hide LeadsTimely, Runs;
    RunsTimely(s, events, s', hash);
    InvKept(s, events, s', hash);
  }

  // ----- building runs -----

  lemma RunsNone(s: State, calm: bool, hash: bytes -> Hash)
    ensures Runs(s, [], s, calm, hash)
  {
  }

  /** One event more in front: from the `k`-th on. */
  lemma RunsStep(s: State, events: seq<Event>, k: nat, s': State, calm: bool, hash: bytes -> Hash)
    requires k < |events| && Enabled(s, events[k], hash) && !events[k].Commit? && (calm ==> Calm(s, events[k], hash))
    requires Runs(Next(s, events[k], hash), events[k + 1..], s', calm, hash)
    ensures Runs(s, events[k..], s', calm, hash)
  {
    hide Next, Enabled, Calm;
    assert events[k..][1..] == events[k + 1..];
  }

  lemma RunsOne(s: State, e: Event, calm: bool, hash: bytes -> Hash)
    requires Enabled(s, e, hash) && !e.Commit? && (calm ==> Calm(s, e, hash))
    ensures Runs(s, [e], Next(s, e, hash), calm, hash)
  {
    hide Runs, Next, Enabled, Calm;
    RunsNone(Next(s, e, hash), calm, hash);
    assert [e][1..] == [] && [e][0..] == [e];
    RunsStep(s, [e], 0, Next(s, e, hash), calm, hash);
  }

  lemma {:induction false} RunsOn(
    s: State, a: seq<Event>, m: State, b: seq<Event>, s': State, calm: bool, hash: bytes -> Hash)
    requires Runs(s, a, m, calm, hash) && Runs(m, b, s', calm, hash)
    ensures Runs(s, a + b, s', calm, hash)
    decreases |a|
  {
    hide Next, Enabled, Calm;
    if a == [] {
      assert a + b == b;
    } else {
      RunsOn(Next(s, a[0], hash), a[1..], m, b, s', calm, hash);
      assert (a + b)[1..] == a[1..] + b;
    }
  }

  function Carried(s: State, t: Task, job: Job, target: Node, data: bytes): State {
    s.(catalog := s.catalog[job.id := Row(target, job.row.hash)],
       stores := s.stores[(target, job.row.hash) := data],
       cycles := s.cycles[t := Cycle([job], Moved(target))])
  }

  /** A ready task can carry any row to any other node. */
  lemma CarryRuns(s: State, t: Task, job: Job, target: Node, data: bytes, calm: bool, hash: bytes -> Hash)
    returns (events: seq<Event>)
    requires t in s.cycles && s.cycles[t] == Cycle([], Ready) && job.id in s.catalog && s.catalog[job.id] == job.row
    requires target != job.row.node && hash(data) == job.row.hash
    requires calm ==> (target, job.row.hash) !in s.inFlight
    ensures Runs(s, events, Carried(s, t, job, target, data), calm, hash)
  {
    hide Runs;
    var es := [Load(t, [job]), Fetch(t, target, data), Upload(t, true, true), Update(t, true, true)];
    var s1 := Next(s, es[0], hash);
    var s2 := Next(s1, es[1], hash);
    var s3 := Next(s2, es[2], hash);
    var s4 := Next(s3, es[3], hash);
    assert s4 == Carried(s, t, job, target, data);
    RunsNone(s4, calm, hash);
    assert es[4..] == [];
    RunsStep(s3, es, 3, s4, calm, hash);
    RunsStep(s2, es, 2, s4, calm, hash);
    RunsStep(s1, es, 1, s4, calm, hash);
    RunsStep(s, es, 0, s4, calm, hash);
    assert es[0..] == es;
    events := es;
  }

  function Migrated(s: State, job: Job, target: Node, data: bytes): State {
    s.(catalog := s.catalog[job.id := Row(target, job.row.hash)],
       stores := s.stores[(target, job.row.hash) := data] - {(job.row.node, job.row.hash)})
  }

  /** One undisturbed migration, from the flag to the flag. */
  lemma MigrationRuns(s: State, job: Job, target: Node, data: bytes, hash: bytes -> Hash) returns (events: seq<Event>)
    requires Quiet(s) && job.id in s.catalog && s.catalog[job.id] == job.row && target != job.row.node
    requires hash(data) == job.row.hash && (target, job.row.hash) !in s.inFlight
    ensures Runs(s, events, Migrated(s, job, target, data), true, hash)
  {
    hide Runs, Carried;
    var m, begin := Next(s, Begin(0), hash), [Begin(0)];
    RunsOne(s, Begin(0), true, hash);
    var carry := CarryRuns(m, 0, job, target, data, true, hash);
    var c := Carried(m, 0, job, target, data);
    var close := MigrationEnds(s, m, c, job, target, data, hash);
    RunsOn(m, carry, c, close, Migrated(s, job, target, data), true, hash);
    RunsOn(s, begin, m, carry + close, Migrated(s, job, target, data), true, hash);
    events := begin + (carry + close);
  }

  /** The old copy is deleted and the flag released. */
  lemma MigrationEnds(s: State, m: State, c: State, job: Job, target: Node, data: bytes, hash: bytes -> Hash)
    returns (events: seq<Event>)
    requires Quiet(s) && m == Next(s, Begin(0), hash) && c == Carried(m, 0, job, target, data)
    ensures Runs(c, events, Migrated(s, job, target, data), true, hash)
  {
    hide Runs;
    events := [DeleteOld(0, Lands), End(0)];
    var c1 := Next(c, events[0], hash);
    var c2 := Next(c1, events[1], hash);
    assert c2.cycles == s.cycles;
    assert c2 == Migrated(s, job, target, data);
    RunsNone(c2, true, hash);
    assert events[2..] == [];
    RunsStep(c1, events, 1, c2, true, hash);
    RunsStep(c, events, 0, c2, true, hash);
    assert events[0..] == events;
  }

  /** A delete that is on its way to a copy no row names can land first. */
  lemma Settles(s: State, node: Node, h: Hash, hash: bytes -> Hash) returns (events: seq<Event>, s': State)
    ensures Runs(s, events, s', true, hash) && (node, h) !in s'.inFlight && s'.inFlight <= s.inFlight
    ensures s'.catalog == s.catalog && s'.cycles == s.cycles && s'.sweeps == s.sweeps && s'.active == s.active
    ensures forall k :: k in s.stores && k != (node, h) ==> k in s'.stores && s'.stores[k] == s.stores[k]
  {
    hide Runs;
    if (node, h) in s.inFlight {
      events, s' := [Land(node, h)], Next(s, Land(node, h), hash);
      RunsOne(s, Land(node, h), true, hash);
    } else {
      events, s' := [], s;
      RunsNone(s, true, hash);
    }
  }

  /** A failure that makes a task give up its first job, whatever it is doing. */
  function Failure(t: Task, c: Cycle): Event
    requires c.jobs != []
  {
    match c.phase
    case Ready => Fetch(t, c.jobs[0].row.node, [])
    case Fetched(_, _) => Upload(t, false, false)
    case Uploaded(_, _) => Update(t, false, false)
    case Moved(_) => DeleteOld(t, Lost)
  }

  lemma FailureStep(s: State, t: Task, hash: bytes -> Hash) returns (jobs: seq<Job>)
    requires t in s.cycles && s.cycles[t].jobs != []
    ensures var e := Failure(t, s.cycles[t]);
            && Enabled(s, e, hash) && !e.Commit? && Calm(s, e, hash)
            && Next(s, e, hash) == s.(cycles := s.cycles[t := Cycle(jobs, Ready)])
    ensures |jobs| < |s.cycles[t].jobs|
  {
    jobs := if s.cycles[t].phase.Uploaded? then [] else s.cycles[t].jobs[1..];
  }

  /** A migrating task can always give up all its jobs. */
  lemma {:induction false} GivesUp(s: State, t: Task, hash: bytes -> Hash) returns (events: seq<Event>, s': State)
    requires t in s.cycles && (s.cycles[t].phase.Ready? || s.cycles[t].jobs != [])
    ensures Runs(s, events, s', true, hash) && s' == s.(cycles := s.cycles[t := Cycle([], Ready)])
    decreases |s.cycles[t].jobs|
  {
    hide Runs, Failure, Next, Enabled, Calm;
    var c := s.cycles[t];
    if c.jobs == [] {
      RunsNone(s, true, hash);
      assert s.cycles[t := c] == s.cycles;
      events, s' := [], s;
    } else {
      var e := Failure(t, c);
      var jobs := FailureStep(s, t, hash);
      var m := Next(s, e, hash);
      RunsOne(s, e, true, hash);
      var rest;
      rest, s' := GivesUp(m, t, hash);
      assert m.cycles[t := Cycle([], Ready)] == s.cycles[t := Cycle([], Ready)];
      RunsOn(s, [e], m, rest, s', true, hash);
      events := [e] + rest;
    }
  }

  /** A cycle holds the flag, and has a job unless it is ready. */
  ghost predicate Busy(s: State) {
    && (s.cycles == map[] || s.active)
    && forall t :: t in s.cycles ==> s.cycles[t].phase.Ready? || s.cycles[t].jobs != []
  }

  /** Some task can be brought to where it loads the next file, unless the flag is stuck. */
  lemma GetsReady(s: State, hash: bytes -> Hash) returns (t: Task, events: seq<Event>, s': State)
    requires !Stuck(s) && Busy(s)
    ensures Runs(s, events, s', true, hash) && t in s'.cycles && s'.cycles[t] == Cycle([], Ready)
    ensures s'.catalog == s.catalog && s'.stores == s.stores && s'.sweeps == s.sweeps && s'.inFlight == s.inFlight
  {
    hide Runs;
    if s.cycles == map[] {
      t, events := 0, [Begin(0)];
      s' := Next(s, Begin(0), hash);
      RunsOne(s, Begin(0), true, hash);
    } else {
      t :| t in s.cycles;
      events, s' := GivesUp(s, t, hash);
    }
  }

  // ----- rows that share a hash -----

  /** Two rows with one hash: migrations alone lead to a row whose node no longer holds its shard. */
  lemma SharedHashLosesShard(s: State, a: RowId, b: RowId, hash: bytes -> Hash) returns (events: seq<Event>, s': State)
    requires Quiet(s) && Safe(s, hash) && Spared(s)
    requires a in s.catalog && b in s.catalog && a != b && s.catalog[a].hash == s.catalog[b].hash
    ensures Runs(s, events, s', true, hash) && !Safe(s', hash)
  {
    hide Runs, Safe;
    var h, here := s.catalog[a].hash, s.catalog[b].node;
    assert Holds(s, here, h, hash) by {
      SafeRow(s, b, hash);
    }
    var m := s;
    RunsNone(s, true, hash);
    events := [];
    if s.catalog[a].node != here {
      var job := Job(a, s.catalog[a]);
      events := MigrationRuns(s, job, here, s.stores[(here, h)], hash);
      m := Migrated(s, job, here, s.stores[(here, h)]);
    }
    var rest;
    rest, s' := TwinMovesAway(m, a, b, hash);
    RunsOn(s, events, m, rest, s', true, hash);
    events := events + rest;
  }

  lemma SafeRow(s: State, id: RowId, hash: bytes -> Hash)
    requires Safe(s, hash) && id in s.catalog
    ensures Holds(s, s.catalog[id].node, s.catalog[id].hash, hash)
  {
  }

  /** One of two equal rows moves to another node and takes the copy of both with it. */
  lemma TwinMovesAway(s: State, a: RowId, b: RowId, hash: bytes -> Hash) returns (events: seq<Event>, s': State)
    requires Quiet(s) && a in s.catalog && b in s.catalog && a != b && s.catalog[a] == s.catalog[b]
    requires Holds(s, s.catalog[b].node, s.catalog[b].hash, hash)
    ensures Runs(s, events, s', true, hash) && !Safe(s', hash)
  {
    hide Runs;
    var row := s.catalog[b];
    var away, data, job := row.node + "'", s.stores[(row.node, row.hash)], Job(a, row);
    var first, m := Settles(s, away, row.hash, hash);
    var move := MigrationRuns(m, job, away, data, hash);
    s' := Migrated(m, job, away, data);
    RunsOn(s, first, m, move, s', true, hash);
    events := first + move;
    assert s'.catalog[b] == row && !Holds(s', row.node, row.hash, hash);
  }

  /** From a quiet, safe catalog, all runs of cycles and sweeps in which no delete is overtaken are safe exactly when no
      two rows share a hash. */
  lemma SafetyExact(s: State, hash: bytes -> Hash)
    requires Quiet(s) && Safe(s, hash) && Spared(s)
    ensures (forall events, s' :: Runs(s, events, s', true, hash) ==> Safe(s', hash)) <==> DistinctHashes(s)
  {
    hide Runs, Safe;
    if DistinctHashes(s) {
      forall events, s' | Runs(s, events, s', true, hash) ensures Safe(s', hash) {
        CalmRunsSafe(s, events, s', hash);
      }
    } else {
      var a, b :| a in s.catalog && b in s.catalog && a != b && s.catalog[a].hash == s.catalog[b].hash;
      var events, s' := SharedHashLosesShard(s, a, b, hash);
    }
  }

  // ----- deletes that are overtaken -----

  /** From a state that satisfies the invariant, an acknowledged upload leaves all runs safe exactly if no delete is on
      its way to the new copy. */
  lemma UploadExact(s: State, e: Event, hash: bytes -> Hash)
    requires Inv(s, hash) && e.Upload? && e.acknowledged && Enabled(s, e, hash)
    ensures (forall events, s' :: Runs(Next(s, e, hash), events, s', true, hash) ==> Safe(s', hash))
        <==> Calm(s, e, hash)
  {
    hide Runs, Safe;
    var m := Next(s, e, hash);
    if Calm(s, e, hash) {
      StepUpload(s, e, hash);
      forall events, s' | Runs(m, events, s', true, hash) ensures Safe(s', hash) {
        CalmRunsSafe(m, events, s', hash);
      }
    } else {
      var events, s' := OvertakenRun(s, e, hash);
    }
  }

  /** The row comes to name the new copy, and then the old delete lands. */
  lemma OvertakenRun(s: State, e: Event, hash: bytes -> Hash) returns (events: seq<Event>, s': State)
    requires Inv(s, hash) && e.Upload? && e.acknowledged && Enabled(s, e, hash) && !Calm(s, e, hash)
    ensures Runs(Next(s, e, hash), events, s', true, hash) && !Safe(s', hash)
  {
    hide Runs, Safe, Spared, DistinctHashes, NoThreat;
    var m, c := Next(s, e, hash), s.cycles[e.t];
    assert UpToDate(s, c, hash);
    var update := Update(e.t, true, true);
    var m' := Next(m, update, hash);
    RunsOne(m, update, true, hash);
    var land;
    land, s' := DeleteLands(m', c.jobs[0].id, hash);
    RunsOn(m, [update], m', land, s', true, hash);
    events := [update] + land;
  }

  /** A row whose copy a delete is on its way to loses it. */
  lemma DeleteLands(s: State, id: RowId, hash: bytes -> Hash) returns (events: seq<Event>, s': State)
    requires id in s.catalog && (s.catalog[id].node, s.catalog[id].hash) in s.inFlight
    ensures Runs(s, events, s', true, hash) && !Safe(s', hash)
  {
    hide Runs;
    var row := s.catalog[id];
    var e := Land(row.node, row.hash);
    events, s' := [e], Next(s, e, hash);
    RunsOne(s, e, true, hash);
    assert s'.catalog[id] == row && !Holds(s', row.node, row.hash, hash);
  }

  /** Without that, any row loses its shard: it is moved away and back, and the first move's delete lands afterwards. */
  lemma LateDeleteLosesShard(s: State, id: RowId, hash: bytes -> Hash) returns (events: seq<Event>, s': State)
    requires Quiet(s) && Safe(s, hash) && id in s.catalog
    ensures Runs(s, events, s', false, hash) && !Safe(s', hash)
  {
    hide Runs, Safe, Carried;
    var row := s.catalog[id];
    SafeRow(s, id, hash);
    var away, data := row.node + "'", s.stores[(row.node, row.hash)];
    var s1 := Next(s, Begin(0), hash);
    RunsOne(s, Begin(0), false, hash);
    var go := CarryRuns(s1, 0, Job(id, row), away, data, false, hash);
    var s2 := Carried(s1, 0, Job(id, row), away, data);
    RunsOn(s, [Begin(0)], s1, go, s2, false, hash);
    var back;
    back, s' := ReturnAndLand(s1, s2, id, row, away, data, hash);
    RunsOn(s, [Begin(0)] + go, s2, back, s', false, hash);
    events := [Begin(0)] + go + back;
  }

  lemma ReturnAndLand(s1: State, s2: State, id: RowId, row: Row, away: Node, data: bytes, hash: bytes -> Hash)
    returns (events: seq<Event>, s': State)
    requires away != row.node && hash(data) == row.hash && s2 == Carried(s1, 0, Job(id, row), away, data)
    ensures Runs(s2, events, s', false, hash) && !Safe(s', hash)
  {
    hide Runs;
    var delete, land := DeleteOld(0, Late), Land(row.node, row.hash);
    var s3 := Next(s2, delete, hash);
    RunsOne(s2, delete, false, hash);
    var job := Job(id, Row(away, row.hash));
    var return' := CarryRuns(s3, 0, job, row.node, data, false, hash);
    var s4 := Carried(s3, 0, job, row.node, data);
    RunsOn(s2, [delete], s3, return', s4, false, hash);
    RunsOne(s4, land, false, hash);
    s' := Next(s4, land, hash);
    RunsOn(s2, [delete] + return', s4, [land], s', false, hash);
    events := [delete] + return' + [land];
    assert s'.catalog[id] == row && !Holds(s', row.node, row.hash, hash);
  }

  lemma EmptyStep(s: State, e: Event, hash: bytes -> Hash)
    requires s.catalog == map[] && Enabled(s, e, hash) && !e.Commit?
    ensures Next(s, e, hash).catalog == map[]
  {
  }

  lemma {:induction false} EmptyStays(s: State, events: seq<Event>, s': State, calm: bool, hash: bytes -> Hash)
    requires s.catalog == map[] && Runs(s, events, s', calm, hash)
    ensures s'.catalog == map[]
    decreases |events|
  {
    hide Next, Enabled, Calm;
    if events != [] {
      EmptyStep(s, events[0], hash);
      EmptyStays(Next(s, events[0], hash), events[1..], s', calm, hash);
    }
  }

  /** If deletes may be overtaken, all runs of cycles and sweeps are safe only when there is nothing to lose. */
  lemma OvertakingExact(s: State, hash: bytes -> Hash)
    requires Quiet(s) && Safe(s, hash)
    ensures (forall events, s' :: Runs(s, events, s', false, hash) ==> Safe(s', hash)) <==> s.catalog == map[]
  {
    hide Runs;
    if s.catalog == map[] {
      forall events, s' | Runs(s, events, s', false, hash) ensures Safe(s', hash) {
        EmptyStays(s, events, s', false, hash);
      }
    } else {
      var id :| id in s.catalog;
      var events, s' := LateDeleteLosesShard(s, id, hash);
    }
  }

  // ----- inserting a row in time -----

  /** A row inserted for a hash that a sweep is about to delete on that node loses its shard. */
  lemma LateCommitLosesShard(s: State, t: Task, id: RowId, h: Hash, hash: bytes -> Hash)
    requires t in s.sweeps && s.sweeps[t].Doomed? && h in s.sweeps[t].hashes && id !in s.catalog
    ensures exists s' ::
              Leads(s, [Commit(id, s.sweeps[t].node, h), DeleteOrphan(t, h, Lands)], s', hash) && !Safe(s', hash)
  {
    var events := [Commit(id, s.sweeps[t].node, h), DeleteOrphan(t, h, Lands)];
    var s1 := Next(s, events[0], hash);
    var s2 := Next(s1, events[1], hash);
    assert events[1..] == [events[1]] && [events[1]][1..] == [];
    assert Leads(s2, [], s2, hash);
    assert Leads(s1, events[1..], s2, hash);
    assert Leads(s, events, s2, hash);
    assert !Holds(s2, s2.catalog[id].node, s2.catalog[id].hash, hash);
  }

  /** Such a sweep exists whenever it lists and queries between an upload and its commit. */
  lemma UploadCanBeDoomed(s: State, node: Node, data: bytes, hash: bytes -> Hash)
    requires Quiet(s) && hash(data) !in Recorded(s)
    ensures exists s' ::
              && Runs(s, [Store(node, data), List(0, node, {hash(data)}), Query(0)], s', true, hash)
              && 0 in s'.sweeps && s'.sweeps[0] == Doomed(node, {hash(data)}) && s'.catalog == s.catalog
  {
    hide Runs;
    var m, h := Next(s, Store(node, data), hash), hash(data);
    RunsOne(s, Store(node, data), true, hash);
    var s' := SinglesOut(m, node, h, hash);
    RunsOn(s, [Store(node, data)], m, [List(0, node, {h}), Query(0)], s', true, hash);
    assert [Store(node, data)] + [List(0, node, {h}), Query(0)] == [Store(node, data), List(0, node, {h}), Query(0)];
  }

  lemma SinglesOut(s: State, node: Node, h: Hash, hash: bytes -> Hash) returns (s': State)
    requires s.sweeps == map[] && (node, h) in s.stores && h !in Recorded(s)
    ensures Runs(s, [List(0, node, {h}), Query(0)], s', true, hash)
    ensures 0 in s'.sweeps && s'.sweeps[0] == Doomed(node, {h}) && s'.catalog == s.catalog
  {
    hide Runs;
    var m := Next(s, List(0, node, {h}), hash);
    RunsOne(s, List(0, node, {h}), true, hash);
    s' := Next(m, Query(0), hash);
    RunsOne(m, Query(0), true, hash);
    RunsOn(s, [List(0, node, {h})], m, [Query(0)], s', true, hash);
    assert [List(0, node, {h})] + [Query(0)] == [List(0, node, {h}), Query(0)];
    assert {h} - Recorded(m) == {h};
  }

  /** A sweep that is going to delete a hash on the row's own node does so. */
  lemma SweepTakes(s: State, u: Task, id: RowId, hash: bytes -> Hash) returns (events: seq<Event>, s': State)
    requires id in s.catalog && u in s.sweeps && s.sweeps[u].Doomed? && s.catalog[id].hash in s.sweeps[u].hashes
    requires s.sweeps[u].node == s.catalog[id].node
    ensures Runs(s, events, s', true, hash) && !Safe(s', hash)
  {
    hide Runs;
    var row := s.catalog[id];
    var e := DeleteOrphan(u, row.hash, Lands);
    events, s' := [e], Next(s, e, hash);
    RunsOne(s, e, true, hash);
    assert s'.catalog[id] == row && !Holds(s', row.node, row.hash, hash);
  }

  /** A threatened row loses its shard on some run. */
  lemma ThreatLosesShard(s: State, u: Task, id: RowId, hash: bytes -> Hash) returns (events: seq<Event>, s': State)
    requires id in s.catalog && u in s.sweeps && Threatens(s, s.sweeps[u], s.catalog[id])
    requires Holds(s, s.catalog[id].node, s.catalog[id].hash, hash) && Busy(s)
    ensures Runs(s, events, s', true, hash) && !Safe(s', hash)
  {
    hide Runs, Next, Enabled, Safe, Calm, Busy;
    var w, job := s.sweeps[u], Job(id, s.catalog[id]);
    if w.node == job.row.node {
      events, s' := SweepTakes(s, u, id, hash);
    } else {
      var t, ready, m := GetsReady(s, hash);
      events, s' := SweepCatchesUp(m, t, u, id, hash);
      RunsOn(s, ready, m, events, s', true, hash);
      events := ready + events;
    }
  }

  /** The row is moved to where the sweep is going to delete its hash. */
  lemma SweepCatchesUp(s: State, t: Task, u: Task, id: RowId, hash: bytes -> Hash)
    returns (events: seq<Event>, s': State)
    requires t in s.cycles && s.cycles[t] == Cycle([], Ready) && id in s.catalog && u in s.sweeps
    requires s.sweeps[u].Doomed? && s.catalog[id].hash in s.sweeps[u].hashes && s.sweeps[u].node != s.catalog[id].node
    requires Holds(s, s.catalog[id].node, s.catalog[id].hash, hash)
    ensures Runs(s, events, s', true, hash) && !Safe(s', hash)
  {
    hide Runs, Next, Enabled, Safe, Calm;
    var w, job := s.sweeps[u], Job(id, s.catalog[id]);
    var data := s.stores[(job.row.node, job.row.hash)];
    var settle, m := Settles(s, w.node, job.row.hash, hash);
    var carry := CarryRuns(m, t, job, w.node, data, true, hash);
    var m' := Carried(m, t, job, w.node, data);
    RunsOn(s, settle, m, carry, m', true, hash);
    var last;
    last, s' := SweepTakes(m', u, id, hash);
    RunsOn(s, settle + carry, m', last, s', true, hash);
    events := settle + carry + last;
  }

  /** From any reachable state, inserting a row leaves all further runs of cycles and sweeps safe exactly if it is
      timely. */
  lemma CommitExact(s: State, e: Event, hash: bytes -> Hash)
    requires Inv(s, hash) && e.Commit? && Enabled(s, e, hash)
    ensures (forall events, s' :: Runs(Next(s, e, hash), events, s', true, hash) ==> Safe(s', hash))
        <==> Timely(s, e, hash)
  {
    hide Runs;
    var m := Next(s, e, hash);
    if Timely(s, e, hash) {
      StepCommit(s, e, hash);
      forall events, s' | Runs(m, events, s', true, hash) ensures Safe(s', hash) {
        CalmRunsSafe(m, events, s', hash);
      }
    } else {
      var events, s' := LateRun(s, e, hash);
    }
  }

  lemma LateRun(s: State, e: Event, hash: bytes -> Hash) returns (events: seq<Event>, s': State)
    requires Inv(s, hash) && e.Commit? && Enabled(s, e, hash) && !Timely(s, e, hash)
    ensures Runs(Next(s, e, hash), events, s', true, hash) && !Safe(s', hash)
  {
    hide Runs, Holds, DistinctHashes, Spared;
    var m, row := Next(s, e, hash), Row(e.node, e.hash);
    SameStores(s, m, e.node, e.hash, hash);
    if !Holds(s, e.node, e.hash, hash) {
      RunsNone(m, true, hash);
      assert m.catalog[e.id] == row && !Holds(m, row.node, row.hash, hash);
      events, s' := [], m;
    } else if (e.node, e.hash) in s.inFlight {
      events, s' := DeleteLands(m, e.id, hash);
    } else if id :| id in s.catalog && s.catalog[id].hash == e.hash {
      AddedSafe(s, m, e.id, row, hash);
      events, s' := TwinRun(m, e.id, id, hash);
    } else {
      var u :| u in s.sweeps && Threatens(s, s.sweeps[u], row);
      forall t | t in m.cycles ensures m.cycles[t].phase.Ready? || m.cycles[t].jobs != [] {
        assert UpToDate(s, s.cycles[t], hash);
      }
      events, s' := ThreatLosesShard(m, u, e.id, hash);
    }
  }

  /** After a crash nothing is under way any more, and a shared hash is lost. */
  lemma TwinRun(s: State, a: RowId, b: RowId, hash: bytes -> Hash) returns (events: seq<Event>, s': State)
    requires Safe(s, hash) && Spared(s)
    requires a in s.catalog && b in s.catalog && a != b && s.catalog[a].hash == s.catalog[b].hash
    ensures Runs(s, events, s', true, hash) && !Safe(s', hash)
  {
    hide Runs;
    var m := Next(s, Crash, hash);
    RunsOne(s, Crash, true, hash);
    var rest;
    rest, s' := SharedHashLosesShard(m, a, b, hash);
    RunsOn(s, [Crash], m, rest, s', true, hash);
    events := [Crash] + rest;
  }

  lemma SameStores(s: State, s': State, node: Node, h: Hash, hash: bytes -> Hash)
    requires s'.stores == s.stores
    ensures Holds(s', node, h, hash) == Holds(s, node, h, hash)
  {
  }
}
