/** The coordinator's tunnel and channel maps under reconnects. */
module Registry {
  type NodeId = string
  type ConnId = nat

  /** One of the two shared maps. */
  class ConnectionMap {
    var entries: map<NodeId, ConnId>

    constructor ()
      ensures entries == map[]
    {
      entries := map[];
    }

    /** After the handshake the connection is entered under its node. */
    method Register(node: NodeId, conn: ConnId)
      modifies this
      ensures entries == old(entries)[node := conn]
    {
      entries := entries[node := conn];
    }

    /** After the connection has closed: remove the entry if it is still this connection's. */
    method Cleanup(node: NodeId, conn: ConnId)
      modifies this
      ensures entries == Dropped(old(entries), node, conn)
    {
      if node in entries && entries[node] == conn {
        entries := entries - {node};
      }
    }
  }

  function Dropped(entries: map<NodeId, ConnId>, node: NodeId, conn: ConnId): map<NodeId, ConnId> {
    if node in entries && entries[node] == conn then entries - {node} else entries
  }

  // ----- runs of any number of connection tasks -----

  datatype Event = Register(node: NodeId, conn: ConnId) | Close(conn: ConnId) | Cleanup(conn: ConnId)

  datatype Task = Task(node: NodeId, closed: bool)

  /** The map, and the connection tasks between registration and the end of their cleanup. */
  datatype State = State(entries: map<NodeId, ConnId>, tasks: map<ConnId, Task>)

  /** Connection ids are distinct among live tasks; a cleanup follows its connection's close. */
  predicate Enabled(s: State, e: Event) {
    match e
    case Register(_, conn) => conn !in s.tasks
    case Close(conn) => conn in s.tasks
    case Cleanup(conn) => conn in s.tasks && s.tasks[conn].closed
  }

  function Next(s: State, e: Event): State
    requires Enabled(s, e)
  {
    match e
    case Register(node, conn) => State(s.entries[node := conn], s.tasks[conn := Task(node, false)])
    case Close(conn) => s.(tasks := s.tasks[conn := s.tasks[conn].(closed := true)])
    case Cleanup(conn) => State(Dropped(s.entries, s.tasks[conn].node, conn), s.tasks - {conn})
  }

  ghost predicate Possible(events: seq<Event>, k: nat)
    requires k <= |events|
    decreases k, 0
  {
    k == 0 || (Possible(events, k - 1) && Enabled(After(events, k - 1), events[k - 1]))
  }

  ghost function After(events: seq<Event>, k: nat): State
    requires k <= |events| && Possible(events, k)
    decreases k, 1
  {
    if k == 0 then State(map[], map[]) else Next(After(events, k - 1), events[k - 1])
  }

  // ----- what the map should say, by the history alone -----

  /** The latest registration of `node` among the first `k` events. */
  ghost predicate IsLatest(events: seq<Event>, k: nat, node: NodeId, i: nat)
    requires k <= |events|
  {
    && i < k && events[i].Register? && events[i].node == node
    && forall j :: i < j < k ==> !(events[j].Register? && events[j].node == node)
  }

  /** The connection registered by event `i` has been cleaned up. */
  ghost predicate CleanedUp(events: seq<Event>, k: nat, i: nat)
    requires i < k <= |events| && events[i].Register?
  {
    exists j :: i < j < k && events[j] == Cleanup(events[i].conn)
  }

  ghost predicate NeverRegistered(events: seq<Event>, k: nat, node: NodeId)
    requires k <= |events|
  {
    forall j :: 0 <= j < k ==> !(events[j].Register? && events[j].node == node)
  }

  /** The entry of `node` is its latest registration until that connection's own cleanup, and absent otherwise. */
  ghost predicate Right(events: seq<Event>, k: nat, node: NodeId, entries: map<NodeId, ConnId>)
    requires k <= |events|
  {
    || (NeverRegistered(events, k, node) && node !in entries)
    || exists i: nat :: IsLatest(events, k, node, i)
         && (if CleanedUp(events, k, i) then node !in entries else node in entries && entries[node] == events[i].conn)
  }

  /** An entry belongs to a live task of that node. */
  ghost predicate EntriesLive(s: State) {
    forall node :: node in s.entries ==> s.entries[node] in s.tasks && s.tasks[s.entries[node]].node == node
  }

  lemma {:induction false} AlwaysLive(events: seq<Event>, k: nat)
    requires k <= |events| && Possible(events, k)
    ensures EntriesLive(After(events, k))
  {
    if k > 0 {
      AlwaysLive(events, k - 1);
    }
  }

  /** Over every interleaving of registrations, closes and cleanups, every entry is the node's latest registration until
      that connection's own cleanup runs; stale cleanups never remove a fresh entry. */
  lemma {:induction false} MapFollowsHistory(events: seq<Event>, k: nat, node: NodeId)
    requires k <= |events| && Possible(events, k)
    ensures Right(events, k, node, After(events, k).entries)
  {
    if k > 0 {
      MapFollowsHistory(events, k - 1, node);
      AlwaysLive(events, k - 1);
      var s, e := After(events, k - 1), events[k - 1];
      if e.Register? && e.node == node {
        assert IsLatest(events, k, node, k - 1) && !CleanedUp(events, k, k - 1);
      } else if NeverRegistered(events, k - 1, node) && node !in s.entries {
        assert NeverRegistered(events, k, node);
      } else {
        var i: nat :| IsLatest(events, k - 1, node, i)
          && (if CleanedUp(events, k - 1, i) then node !in s.entries
              else node in s.entries && s.entries[node] == events[i].conn);
        StillLatest(events, k, node, i, s);
      }
    }
  }

  lemma StillLatest(events: seq<Event>, k: nat, node: NodeId, i: nat, s: State)
    requires 0 < k <= |events| && Enabled(s, events[k - 1]) && EntriesLive(s)
    requires !(events[k - 1].Register? && events[k - 1].node == node) && IsLatest(events, k - 1, node, i)
    requires if CleanedUp(events, k - 1, i) then node !in s.entries
        else node in s.entries && s.entries[node] == events[i].conn
    ensures IsLatest(events, k, node, i)
    ensures var entries := Next(s, events[k - 1]).entries;
            if CleanedUp(events, k, i) then node !in entries else node in entries && entries[node] == events[i].conn
  {
    var e := events[k - 1];
    if CleanedUp(events, k - 1, i) {
      assert CleanedUp(events, k, i);
    } else if e == Cleanup(events[i].conn) {
      assert CleanedUp(events, k, i);
    } else {
      assert !CleanedUp(events, k, i);
    }
  }

  /** Nothing leaks: once all tasks have finished the map is empty. */
  lemma NoLeak(events: seq<Event>)
    requires Possible(events, |events|) && After(events, |events|).tasks == map[]
    ensures After(events, |events|).entries == map[]
  {
    AlwaysLive(events, |events|);
    assert After(events, |events|).entries.Keys == {};
  }

  lemma LatestUnique(events: seq<Event>, k: nat, node: NodeId, i: nat, j: nat)
    requires k <= |events| && IsLatest(events, k, node, i) && IsLatest(events, k, node, j)
    ensures i == j && !NeverRegistered(events, k, node)
  {
  }

  /** The connection was registered by an event before `k`, and has closed since exactly if its task says so. */
  ghost predicate TaskKnown(events: seq<Event>, k: nat, conn: ConnId, task: Task)
    requires k <= |events|
  {
    exists i :: 0 <= i < k && events[i] == Register(task.node, conn)
                && (task.closed <==> exists j :: i < j < k && events[j] == Close(conn))
  }

  lemma {:induction false} TasksKnown(events: seq<Event>, k: nat, conn: ConnId)
    requires k <= |events| && Possible(events, k)
    ensures conn in After(events, k).tasks ==> TaskKnown(events, k, conn, After(events, k).tasks[conn])
  {
    if k > 0 {
      TasksKnown(events, k - 1, conn);
      var s, s', e := After(events, k - 1), After(events, k), events[k - 1];
      if conn in s'.tasks {
        if e.Register? && e.conn == conn {
          assert events[k - 1] == Register(s'.tasks[conn].node, conn);
        } else {
          var i :| 0 <= i < k - 1 && events[i] == Register(s.tasks[conn].node, conn)
                   && (s.tasks[conn].closed <==> exists j :: i < j < k - 1 && events[j] == Close(conn));
          if e == Close(conn) {
            assert i < k - 1 < k && events[k - 1] == Close(conn);
          }
          assert s'.tasks[conn].closed <==> exists j :: i < j < k && events[j] == Close(conn);
        }
      }
    }
  }

  /** A connection is cleaned up only after it has closed. */
  lemma CleanupAfterClose(events: seq<Event>, k: nat, conn: ConnId)
    requires k < |events| && Possible(events, k + 1) && events[k] == Cleanup(conn)
    ensures exists i, j :: 0 <= i < j < k && events[i].Register? && events[i].conn == conn && events[j] == Close(conn)
  {
    TasksKnown(events, k, conn);
    var task := After(events, k).tasks[conn];
    var i :| 0 <= i < k && events[i] == Register(task.node, conn)
             && (task.closed <==> exists j :: i < j < k && events[j] == Close(conn));
    var j :| i < j < k && events[j] == Close(conn);
  }

  /** A new connection can always be registered, closed and cleaned up, and then leaves nothing behind. */
  lemma ConnectionLife(s: State, node: NodeId, conn: ConnId)
    requires conn !in s.tasks
    ensures Enabled(s, Register(node, conn))
    ensures var s1 := Next(s, Register(node, conn));
            && node in s1.entries && s1.entries[node] == conn && Enabled(s1, Close(conn))
            && !Enabled(s1, Cleanup(conn))
            && var s2 := Next(s1, Close(conn));
               && s2.entries == s1.entries && Enabled(s2, Cleanup(conn))
               && Next(s2, Cleanup(conn)) == State(s.entries - {node}, s.tasks)
  {
    var s1 := Next(s, Register(node, conn));
    var s2 := Next(s1, Close(conn));
    assert s2.tasks - {conn} == s.tasks;
    assert s2.entries - {node} == s.entries - {node};
  }
}
