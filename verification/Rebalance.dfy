/** Shard migration and orphan sweeps as a step protocol with failures and crashes. */
module Rebalance {
  import opened ByteOrder

  type Node = string
  type Hash = string
  type Task = nat

  /** A row of the shard catalog is known by file hash and shard index. */
  datatype RowId = RowId(file: string, index: nat)

  datatype Row = Row(node: Node, hash: Hash)

  /** A row as it was read at the start of `rebalance_file`. */
  datatype Job = Job(id: RowId, row: Row)

  /** Where a migration of the first job stands. */
  datatype Phase =
    | Ready
    | Fetched(target: Node, data: bytes)      // bytes obtained, integrity check passed
    | Uploaded(target: Node, data: bytes)     // the new node has acknowledged them
    | Moved(target: Node)                     // the catalog names the new node

  datatype Cycle = Cycle(jobs: seq<Job>, phase: Phase)

  /** A sweep of one node: the listing it received, then the hashes it will delete. */
  datatype Sweep = Listed(node: Node, hashes: set<Hash>) | Doomed(node: Node, hashes: set<Hash>)

  datatype State = State(
    catalog: map<RowId, Row>,
    backups: set<Hash>,                       // hashes recorded for database snapshots
    stores: map<(Node, Hash), bytes>,         // what every node holds, by hash
    inFlight: set<(Node, Hash)>,              // deletes that may still reach their node
    active: bool,                             // REBALANCE_ACTIVE
    cycles: map<Task, Cycle>,
    sweeps: map<Task, Sweep>)

  function Recorded(s: State): set<Hash> {
    (set id | id in s.catalog :: s.catalog[id].hash) + s.backups
  }

  ghost predicate IsSnapshot(s: State, jobs: seq<Job>) {
    && (forall i :: 0 <= i < |jobs| ==> jobs[i].id in s.catalog && s.catalog[jobs[i].id] == jobs[i].row)
    && (forall i, j :: 0 <= i < j < |jobs| ==> jobs[i].id != jobs[j].id)
  }

  /** What becomes of a remote delete. */
  datatype Fate = Lands | Lost | Late

  /** What a step is given or what it meets. */
  datatype Event =
    | Begin(t: Task)                                        // compare-and-swap of the flag
    | Load(t: Task, jobs: seq<Job>)                         // rows of the next file
    | Fetch(t: Task, target: Node, data: bytes)             // local re-shard or old node; any bytes may come
    | Upload(t: Task, acknowledged: bool, landed: bool)
    | Update(t: Task, acknowledged: bool, applied: bool)
    | DeleteOld(t: Task, fate: Fate)
    | End(t: Task)                                          // the flag is released
    | Abandon(t: Task)                                      // the task is dropped, the flag stays set
    | Crash                                                 // all tasks and the flag are lost
    | List(t: Task, node: Node, hashes: set<Hash>)
    | Query(t: Task)
    | DeleteOrphan(t: Task, hash: Hash, fate: Fate)
    | Finish(t: Task)
    | Land(node: Node, hash: Hash)                          // a late delete reaches its node
    | Store(node: Node, data: bytes)                        // a new shard is uploaded
    | Commit(id: RowId, node: Node, hash: Hash)             // and its catalog row inserted

  ghost predicate Enabled(s: State, e: Event, hash: bytes -> Hash) {
    match e
    case Begin(t) => t !in s.cycles
    case Load(t, jobs) => t in s.cycles && s.cycles[t] == Cycle([], Ready) && IsSnapshot(s, jobs)
    case Fetch(t, target, data) => t in s.cycles && s.cycles[t].jobs != [] && s.cycles[t].phase.Ready?
    case Upload(t, _, _) => t in s.cycles && s.cycles[t].jobs != [] && s.cycles[t].phase.Fetched?
    case Update(t, acknowledged, applied) =>
      t in s.cycles && s.cycles[t].jobs != [] && s.cycles[t].phase.Uploaded? && (acknowledged ==> applied)
    case DeleteOld(t, _) => t in s.cycles && s.cycles[t].jobs != [] && s.cycles[t].phase.Moved?
    case End(t) => t in s.cycles && s.cycles[t] == Cycle([], Ready)
    case Abandon(t) => t in s.cycles
    case Crash => true
    case List(t, node, hashes) => t !in s.sweeps && forall h :: h in hashes ==> (node, h) in s.stores
    case Query(t) => t in s.sweeps && s.sweeps[t].Listed?
    case DeleteOrphan(t, h, _) => t in s.sweeps && s.sweeps[t].Doomed? && h in s.sweeps[t].hashes
    case Finish(t) => t in s.sweeps
    case Land(node, h) => (node, h) in s.inFlight
    case Store(_, _) => true
    case Commit(id, _, _) => id !in s.catalog
  }

  function Deleted(s: State, node: Node, h: Hash, fate: Fate): State {
    match fate
    case Lands => s.(stores := s.stores - {(node, h)})
    case Lost => s
    case Late => s.(inFlight := s.inFlight + {(node, h)})
  }

  function Next(s: State, e: Event, hash: bytes -> Hash): State
    requires Enabled(s, e, hash)
  {
    match e
    case Begin(t) => if s.active then s else s.(active := true, cycles := s.cycles[t := Cycle([], Ready)])
    case Load(t, jobs) => s.(cycles := s.cycles[t := Cycle(jobs, Ready)])
    case Fetch(t, target, data) =>
      var c := s.cycles[t];
      // skipped when the shard is in place already or the bytes do not match the record
      if target == c.jobs[0].row.node || hash(data) != c.jobs[0].row.hash then
        s.(cycles := s.cycles[t := Cycle(c.jobs[1..], Ready)])
      else s.(cycles := s.cycles[t := c.(phase := Fetched(target, data))])
    case Upload(t, acknowledged, landed) =>
      var c := s.cycles[t];
      var copy := (c.phase.target, hash(c.phase.data));
      var stores := if acknowledged || landed then s.stores[copy := c.phase.data] else s.stores;
      var c' := if acknowledged then c.(phase := Uploaded(c.phase.target, c.phase.data)) else Cycle(c.jobs[1..], Ready);
      s.(stores := stores, cycles := s.cycles[t := c'])
    case Update(t, acknowledged, applied) =>
      var c := s.cycles[t];
      var id := c.jobs[0].id;
      var row := Row(c.phase.target, hash(c.phase.data));
      var catalog := if applied && id in s.catalog then s.catalog[id := row] else s.catalog;
      var c' := if acknowledged then c.(phase := Moved(c.phase.target)) else Cycle([], Ready);
      s.(catalog := catalog, cycles := s.cycles[t := c'])
    case DeleteOld(t, fate) =>
      var c := s.cycles[t];
      Deleted(s, c.jobs[0].row.node, c.jobs[0].row.hash, fate).(cycles := s.cycles[t := Cycle(c.jobs[1..], Ready)])
    case End(t) => s.(active := false, cycles := s.cycles - {t})
    case Abandon(t) => s.(cycles := s.cycles - {t})
    case Crash => s.(active := false, cycles := map[], sweeps := map[])
    case List(t, node, hashes) => s.(sweeps := s.sweeps[t := Listed(node, hashes)])
    case Query(t) => s.(sweeps := s.sweeps[t := Doomed(s.sweeps[t].node, s.sweeps[t].hashes - Recorded(s))])
    case DeleteOrphan(t, h, fate) =>
      var w := s.sweeps[t];
      Deleted(s, w.node, h, fate).(sweeps := s.sweeps[t := Doomed(w.node, w.hashes - {h})])
    case Finish(t) => s.(sweeps := s.sweeps - {t})
    case Land(node, h) => s.(stores := s.stores - {(node, h)}, inFlight := s.inFlight - {(node, h)})
    case Store(node, data) => s.(stores := s.stores[(node, hash(data)) := data])
    case Commit(id, node, h) => s.(catalog := s.catalog[id := Row(node, h)])
  }

  /** The flag is set and no task is left to release it, so no row moves until the next crash. */
  predicate Stuck(s: State) {
    s.active && s.cycles == map[]
  }

  /** The sweep is going to delete the hash of `row`, from the node that holds it or from one it can still be moved
      to. */
  ghost predicate Threatens(s: State, w: Sweep, row: Row) {
    w.Doomed? && row.hash in w.hashes && (w.node == row.node || !Stuck(s))
  }

  /** The shard a row is inserted for is still where it was put, no delete is on its way to it, no sweep threatens it,
      and no other row has its hash. The code checks none of this. */
  ghost predicate Timely(s: State, e: Event, hash: bytes -> Hash) {
    e.Commit? ==>
      && Holds(s, e.node, e.hash, hash) && (e.node, e.hash) !in s.inFlight
      && (forall t :: t in s.sweeps ==> !Threatens(s, s.sweeps[t], Row(e.node, e.hash)))
      && (forall id :: id in s.catalog ==> s.catalog[id].hash != e.hash)
  }

  /** No delete is on its way to a copy that a migration has just made. The code does not check this either. */
  ghost predicate Calm(s: State, e: Event, hash: bytes -> Hash)
    requires Enabled(s, e, hash)
  {
    e.Upload? && e.acknowledged ==>
      var phase := s.cycles[e.t].phase;
      (phase.target, hash(phase.data)) !in s.inFlight
  }

  // ----- safety -----

  ghost predicate Holds(s: State, node: Node, h: Hash, hash: bytes -> Hash) {
    (node, h) in s.stores && hash(s.stores[(node, h)]) == h
  }

  /** Every catalog row's node holds bytes that hash to the recorded hash. */
  ghost predicate Safe(s: State, hash: bytes -> Hash) {
    forall id :: id in s.catalog ==> Holds(s, s.catalog[id].node, s.catalog[id].hash, hash)
  }

  /** No delete is on its way to a copy that a catalog row names. */
  ghost predicate Spared(s: State) {
    forall id :: id in s.catalog ==> (s.catalog[id].node, s.catalog[id].hash) !in s.inFlight
  }

  ghost predicate DistinctHashes(s: State) {
    forall a, b :: a in s.catalog && b in s.catalog && a != b ==> s.catalog[a].hash != s.catalog[b].hash
  }

  ghost predicate AtMostOneCycle(s: State) {
    && (forall t, t' :: t in s.cycles && t' in s.cycles ==> t == t')
    && (s.cycles != map[] ==> s.active)
  }

  /** The jobs still to do read as the catalog does. */
  ghost predicate UpToDate(s: State, c: Cycle, hash: bytes -> Hash) {
    if c.phase.Moved? then
      && c.jobs != [] && c.jobs[0].id in s.catalog && c.phase.target != c.jobs[0].row.node
      && s.catalog[c.jobs[0].id] == Row(c.phase.target, c.jobs[0].row.hash)
      && IsSnapshot(s, c.jobs[1..])
      && forall i :: 1 <= i < |c.jobs| ==> c.jobs[i].id != c.jobs[0].id
    else
      && IsSnapshot(s, c.jobs)
      && (!c.phase.Ready? ==>
          c.jobs != [] && c.phase.target != c.jobs[0].row.node && hash(c.phase.data) == c.jobs[0].row.hash)
      && (c.phase.Uploaded? ==>
            Holds(s, c.phase.target, c.jobs[0].row.hash, hash) && (c.phase.target, c.jobs[0].row.hash) !in s.inFlight)
  }

  /** No sweep threatens a catalog row, or is going to delete a snapshot. */
  ghost predicate NoThreat(s: State) {
    && (forall t, id :: t in s.sweeps && id in s.catalog ==> !Threatens(s, s.sweeps[t], s.catalog[id]))
    && (forall t :: t in s.sweeps && s.sweeps[t].Doomed? ==> s.sweeps[t].hashes !! s.backups)
  }

  ghost predicate Inv(s: State, hash: bytes -> Hash) {
    && Safe(s, hash) && Spared(s) && DistinctHashes(s) && AtMostOneCycle(s) && NoThreat(s)
    && forall t :: t in s.cycles ==> UpToDate(s, s.cycles[t], hash)
  }

  /** The catalog keeps its rows and their hashes. */
  ghost predicate SameHashes(s: State, s': State) {
    forall id :: id in s.catalog ==> id in s'.catalog && s'.catalog[id].hash == s.catalog[id].hash
  }

  lemma RecordedHash(s: State, id: RowId)
    requires id in s.catalog
    ensures s.catalog[id].hash in Recorded(s)
  {
  }

  lemma JobsDone(s: State, jobs: seq<Job>)
    requires jobs != [] && IsSnapshot(s, jobs)
    ensures IsSnapshot(s, jobs[1..])
  {
  }

  /** A step of a cycle other than a move of its catalog row or a deletion. */
  lemma QuietStep(s: State, s': State, t: Task, c': Cycle, hash: bytes -> Hash)
    requires Inv(s, hash) && t in s.cycles
    requires s'.catalog == s.catalog && s'.backups == s.backups && s'.sweeps == s.sweeps
    requires s'.active == s.active && s'.inFlight == s.inFlight
    requires s'.cycles == s.cycles[t := c']
    requires forall k :: k in s.stores ==> k in s'.stores && (s'.stores[k] == s.stores[k] || hash(s'.stores[k]) == k.1)
    requires UpToDate(s', c', hash)
    ensures Inv(s', hash)
  {
    assert !Stuck(s);
  }

  lemma StepUpload(s: State, e: Event, hash: bytes -> Hash)
    requires Inv(s, hash) && e.Upload? && Enabled(s, e, hash) && Calm(s, e, hash)
    ensures Inv(Next(s, e, hash), hash) && SameHashes(s, Next(s, e, hash))
  {
    hide Safe, Spared, DistinctHashes, NoThreat, IsSnapshot;
    var c, s' := s.cycles[e.t], Next(s, e, hash);
    JobsDone(s, c.jobs);
    SameSnapshot(s, s');
    QuietStep(s, s', e.t, s'.cycles[e.t], hash);
  }

  lemma StepFetch(s: State, e: Event, hash: bytes -> Hash)
    requires Inv(s, hash) && (e.Fetch? || e.Load?) && Enabled(s, e, hash)
    ensures Inv(Next(s, e, hash), hash) && SameHashes(s, Next(s, e, hash))
  {
    hide Safe, Spared, DistinctHashes, NoThreat, IsSnapshot;
    var c, s' := s.cycles[e.t], Next(s, e, hash);
    if e.Fetch? {
      JobsDone(s, c.jobs);
    }
    SameSnapshot(s, s');
    QuietStep(s, s', e.t, s'.cycles[e.t], hash);
  }

  lemma SameSnapshot(s: State, s': State)
    requires s'.catalog == s.catalog
    ensures forall jobs :: IsSnapshot(s, jobs) ==> IsSnapshot(s', jobs)
  {
  }

  /** A row comes to name another node that holds its shard. */
  lemma RowMoved(s: State, s': State, id: RowId, node: Node, hash: bytes -> Hash)
    requires id in s.catalog && s'.catalog == s.catalog[id := Row(node, s.catalog[id].hash)]
    requires s'.stores == s.stores && s'.inFlight == s.inFlight
    requires Holds(s, node, s.catalog[id].hash, hash) && (node, s.catalog[id].hash) !in s.inFlight
    ensures Safe(s, hash) && Spared(s) ==> Safe(s', hash) && Spared(s')
    ensures DistinctHashes(s) ==> DistinctHashes(s')
    ensures SameHashes(s, s')
  {
  }

  /** The jobs of an uploaded cycle after its update has been applied. */
  lemma JobsAfterMove(s: State, s': State, c: Cycle, hash: bytes -> Hash)
    requires UpToDate(s, c, hash) && c.phase.Uploaded? && c.jobs != []
    requires s'.catalog == s.catalog[c.jobs[0].id := Row(c.phase.target, c.jobs[0].row.hash)]
    ensures UpToDate(s', c.(phase := Moved(c.phase.target)), hash)
  {
    forall i | 1 <= i < |c.jobs| ensures c.jobs[i].id != c.jobs[0].id && s'.catalog[c.jobs[i].id] == c.jobs[i].row {
      assert c.jobs[0].id != c.jobs[i].id;
    }
  }

  lemma StepUpdate(s: State, e: Event, hash: bytes -> Hash)
    requires Inv(s, hash) && e.Update? && Enabled(s, e, hash)
    ensures Inv(Next(s, e, hash), hash) && SameHashes(s, Next(s, e, hash))
  {
    hide Safe, Spared, DistinctHashes, SameHashes, Holds;
    var c, s' := s.cycles[e.t], Next(s, e, hash);
    assert !Stuck(s) && s.catalog[c.jobs[0].id] == c.jobs[0].row;
    NewCycle(s', hash);
    if e.applied {
      RowMoved(s, s', c.jobs[0].id, c.phase.target, hash);
      JobsAfterMove(s, s', c, hash);
    } else {
      SameCopies(s, s', hash);
      SameCatalog(s, s');
    }
    assert forall t :: t in s'.cycles ==> t == e.t;
  }

  /** Deleting a copy that no catalog row names is harmless, at once or late. */
  lemma UnnamedCopy(s: State, node: Node, h: Hash, fate: Fate, hash: bytes -> Hash)
    requires Safe(s, hash) && Spared(s) && forall id :: id in s.catalog ==> s.catalog[id] != Row(node, h)
    ensures Safe(Deleted(s, node, h, fate), hash) && Spared(Deleted(s, node, h, fate))
  {
  }

  /** A delete changes nothing but copies and what is on its way to them. */
  lemma DeletedFrame(s: State, node: Node, h: Hash, fate: Fate)
    ensures var s' := Deleted(s, node, h, fate);
            && s'.catalog == s.catalog && s'.backups == s.backups && s'.active == s.active
            && s'.cycles == s.cycles && s'.sweeps == s.sweeps
  {
  }

  /** Safety is a matter of catalog, copies and deletes on their way. */
  lemma SameCopies(s: State, s': State, hash: bytes -> Hash)
    requires s'.catalog == s.catalog && s'.stores == s.stores && s'.inFlight == s.inFlight
    ensures Safe(s, hash) && Spared(s) ==> Safe(s', hash) && Spared(s')
    ensures DistinctHashes(s) ==> DistinctHashes(s')
    ensures forall c :: UpToDate(s, c, hash) ==> UpToDate(s', c, hash)
  {
  }

  /** A cycle is not concerned by the deletion of a copy other than the one it has just made. */
  lemma OtherCopy(s: State, c: Cycle, node: Node, h: Hash, fate: Fate, hash: bytes -> Hash)
    requires UpToDate(s, c, hash)
    requires c.phase.Uploaded? && c.jobs != [] ==> (c.phase.target, c.jobs[0].row.hash) != (node, h)
    ensures UpToDate(Deleted(s, node, h, fate), c, hash)
  {
  }

  lemma StepDeleteOld(s: State, e: Event, hash: bytes -> Hash)
    requires Inv(s, hash) && e.DeleteOld? && Enabled(s, e, hash)
    ensures Inv(Next(s, e, hash), hash) && SameHashes(s, Next(s, e, hash))
  {
    hide Safe, Spared, UpToDate, Deleted, IsSnapshot;
    var c, s' := s.cycles[e.t], Next(s, e, hash);
    var row := c.jobs[0].row;
    var d, c' := Deleted(s, row.node, row.hash, e.fate), Cycle(c.jobs[1..], Ready);
    MovedRow(s, c, hash);
    UnnamedCopy(s, row.node, row.hash, e.fate, hash);
    DeletedFrame(s, row.node, row.hash, e.fate);
    JobsLeft(s, d, c, hash);
    SameCopies(d, s', hash);
    assert forall t :: t in s'.cycles ==> s'.cycles[t] == c';
  }

  /** Nothing in the catalog names the copy that a finished migration leaves behind. */
  lemma MovedRow(s: State, c: Cycle, hash: bytes -> Hash)
    requires UpToDate(s, c, hash) && DistinctHashes(s) && c.phase.Moved? && c.jobs != []
    ensures forall id :: id in s.catalog ==> s.catalog[id] != c.jobs[0].row
  {
    var job := c.jobs[0];
    forall id | id in s.catalog ensures s.catalog[id] != job.row {
      assert id != job.id ==> s.catalog[id].hash != s.catalog[job.id].hash;
    }
  }

  lemma JobsLeft(s: State, s': State, c: Cycle, hash: bytes -> Hash)
    requires UpToDate(s, c, hash) && c.phase.Moved? && c.jobs != [] && s'.catalog == s.catalog
    ensures UpToDate(s', Cycle(c.jobs[1..], Ready), hash)
  {
  }

  lemma StepDeleteOrphan(s: State, e: Event, hash: bytes -> Hash)
    requires Inv(s, hash) && e.DeleteOrphan? && Enabled(s, e, hash)
    ensures Inv(Next(s, e, hash), hash) && SameHashes(s, Next(s, e, hash))
  {
    hide Safe, Spared, UpToDate, Deleted, DistinctHashes;
    var s', w, h := Next(s, e, hash), s.sweeps[e.t], e.hash;
    var d := Deleted(s, w.node, h, e.fate);
    forall id | id in s.catalog ensures s.catalog[id] != Row(w.node, h) {
      assert !Threatens(s, w, s.catalog[id]);
    }
    UnnamedCopy(s, w.node, h, e.fate, hash);
    DeletedFrame(s, w.node, h, e.fate);
    SameCopies(d, s', hash);
    SameCatalog(s, d);
    forall t | t in s'.cycles ensures UpToDate(s', s'.cycles[t], hash) {
      CycleUndoomed(s, w, s.cycles[t], h, hash);
      OtherCopy(s, s.cycles[t], w.node, h, e.fate, hash);
    }
    forall t, id | t in s'.sweeps && id in s'.catalog ensures !Threatens(s', s'.sweeps[t], s'.catalog[id]) {
      assert !Threatens(s, s.sweeps[t], s.catalog[id]);
    }
  }

  lemma SameCatalog(s: State, s': State)
    requires s'.catalog == s.catalog
    ensures SameHashes(s, s') && (DistinctHashes(s) ==> DistinctHashes(s'))
  {
  }

  /** A hash that a sweep is going to delete is not one that a cycle has just copied. */
  lemma CycleUndoomed(s: State, w: Sweep, c: Cycle, h: Hash, hash: bytes -> Hash)
    requires UpToDate(s, c, hash) && w.Doomed? && h in w.hashes && !Stuck(s)
    requires forall id :: id in s.catalog ==> !Threatens(s, w, s.catalog[id])
    ensures c.phase.Uploaded? && c.jobs != [] ==> c.jobs[0].row.hash != h
  {
    if c.phase.Uploaded? {
      assert !Threatens(s, w, s.catalog[c.jobs[0].id]);
    }
  }

  lemma StepTask(s: State, e: Event, hash: bytes -> Hash)
    requires Inv(s, hash) && Enabled(s, e, hash)
    requires e.Begin? || e.End? || e.Abandon? || e.Crash?
    ensures Inv(Next(s, e, hash), hash) && SameHashes(s, Next(s, e, hash))
  {
    hide UpToDate, Safe, Spared, DistinctHashes;
    var s' := Next(s, e, hash);
    SameCopies(s, s', hash);
    SameCatalog(s, s');
    NewCycle(s', hash);
    forall t | t in s'.cycles ensures UpToDate(s', s'.cycles[t], hash) {
      assert t in s.cycles ==> UpToDate(s, s.cycles[t], hash);
    }
    forall t, id | t in s'.sweeps && id in s'.catalog ensures !Threatens(s', s'.sweeps[t], s'.catalog[id]) {
      assert !Threatens(s, s.sweeps[t], s.catalog[id]);
    }
  }

  lemma NewCycle(s: State, hash: bytes -> Hash)
    ensures UpToDate(s, Cycle([], Ready), hash)
  {
  }

  /** A step that touches neither catalog nor tasks, and keeps or replaces copies only by good ones. */
  lemma OutsideStep(s: State, s': State, hash: bytes -> Hash)
    requires Inv(s, hash) && NoThreat(s')
    requires s'.catalog == s.catalog && s'.active == s.active && s'.cycles == s.cycles && s'.inFlight == s.inFlight
    requires forall k :: k in s.stores ==> k in s'.stores && (s'.stores[k] == s.stores[k] || hash(s'.stores[k]) == k.1)
    ensures Inv(s', hash)
  {
    hide NoThreat;
    forall t | t in s'.cycles ensures UpToDate(s', s'.cycles[t], hash) {
      assert UpToDate(s, s.cycles[t], hash);
    }
  }

  lemma StepSweep(s: State, e: Event, hash: bytes -> Hash)
    requires Inv(s, hash) && Enabled(s, e, hash)
    requires e.List? || e.Query? || e.Finish?
    ensures Inv(Next(s, e, hash), hash) && SameHashes(s, Next(s, e, hash))
  {
    hide UpToDate, Safe, Spared, DistinctHashes, AtMostOneCycle;
    var s' := Next(s, e, hash);
    forall t, id | t in s'.sweeps && id in s'.catalog ensures !Threatens(s', s'.sweeps[t], s'.catalog[id]) {
      RecordedHash(s, id);
      assert t in s.sweeps ==> !Threatens(s, s.sweeps[t], s.catalog[id]);
    }
    OutsideStep(s, s', hash);
  }

  lemma StepStore(s: State, e: Event, hash: bytes -> Hash)
    requires Inv(s, hash) && e.Store?
    ensures Inv(Next(s, e, hash), hash) && SameHashes(s, Next(s, e, hash))
  {
    hide UpToDate, Safe, Spared, DistinctHashes, AtMostOneCycle;
    OutsideStep(s, Next(s, e, hash), hash);
  }

  /** A new row in the catalog, with nothing else changed. */
  ghost predicate RowAdded(s: State, s': State, id: RowId, row: Row) {
    id !in s.catalog && s' == s.(catalog := s.catalog[id := row])
  }

  lemma AddedSafe(s: State, s': State, id: RowId, row: Row, hash: bytes -> Hash)
    requires RowAdded(s, s', id, row) && Safe(s, hash) && DistinctHashes(s) && Holds(s, row.node, row.hash, hash)
    requires Spared(s) && (row.node, row.hash) !in s.inFlight
    ensures Safe(s', hash) && Spared(s')
    ensures (forall k :: k in s.catalog ==> s.catalog[k].hash != row.hash) ==> DistinctHashes(s')
  {
  }

  lemma AddedUpToDate(s: State, s': State, id: RowId, row: Row, c: Cycle, hash: bytes -> Hash)
    requires RowAdded(s, s', id, row) && UpToDate(s, c, hash)
    ensures UpToDate(s', c, hash)
  {
  }

  lemma StepCommit(s: State, e: Event, hash: bytes -> Hash)
    requires Inv(s, hash) && e.Commit? && Enabled(s, e, hash) && Timely(s, e, hash)
    ensures Inv(Next(s, e, hash), hash) && SameHashes(s, Next(s, e, hash))
  {
    hide UpToDate, Safe, Spared, DistinctHashes, Holds;
    var s', row := Next(s, e, hash), Row(e.node, e.hash);
    AddedSafe(s, s', e.id, row, hash);
    forall t | t in s'.cycles ensures UpToDate(s', s'.cycles[t], hash) {
      AddedUpToDate(s, s', e.id, row, s.cycles[t], hash);
    }
  }

  lemma StepLand(s: State, e: Event, hash: bytes -> Hash)
    requires Inv(s, hash) && e.Land? && Enabled(s, e, hash)
    ensures Inv(Next(s, e, hash), hash) && SameHashes(s, Next(s, e, hash))
  {
    hide UpToDate, DistinctHashes;
    var s' := Next(s, e, hash);
    SameCatalog(s, s');
    forall t | t in s'.cycles ensures UpToDate(s', s'.cycles[t], hash) {
      LandedElsewhere(s, s.cycles[t], e.node, e.hash, hash);
    }
  }

  lemma LandedElsewhere(s: State, c: Cycle, node: Node, h: Hash, hash: bytes -> Hash)
    requires UpToDate(s, c, hash) && (node, h) in s.inFlight
    ensures UpToDate(s.(stores := s.stores - {(node, h)}, inFlight := s.inFlight - {(node, h)}), c, hash)
  {
  }

  /** Every step keeps the invariant and the recorded hashes. */
  lemma StepKeeps(s: State, e: Event, hash: bytes -> Hash)
    requires Inv(s, hash) && Enabled(s, e, hash) && Timely(s, e, hash) && Calm(s, e, hash)
    ensures Inv(Next(s, e, hash), hash) && SameHashes(s, Next(s, e, hash))
  {
    hide Inv, Timely, Calm, Next, Enabled, SameHashes;
    match e
    case Upload(_, _, _) => StepUpload(s, e, hash);
    case Load(_, _) => StepFetch(s, e, hash);
    case Fetch(_, _, _) => StepFetch(s, e, hash);
    case Update(_, _, _) => StepUpdate(s, e, hash);
    case DeleteOld(_, _) => StepDeleteOld(s, e, hash);
    case DeleteOrphan(_, _, _) => StepDeleteOrphan(s, e, hash);
    case Store(_, _) => StepStore(s, e, hash);
    case Land(_, _) => StepLand(s, e, hash);
    case Commit(_, _, _) => StepCommit(s, e, hash);
    case List(_, _, _) => StepSweep(s, e, hash);
    case Query(_) => StepSweep(s, e, hash);
    case Finish(_) => StepSweep(s, e, hash);
    case _ => StepTask(s, e, hash);
  }
}
