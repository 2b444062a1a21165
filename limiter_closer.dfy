/**
 * The replica close orchestrator: after the synchronizer has reconciled a
 * file's replicas, ask every physical replica to close the file and drop the
 * file's coordinator entry; if reconciliation fails, drop the entry anyway.
 *
 * The collaborators whose code is not part of this model (synchronizer,
 * connection pool, server-id mapping, path format, disk-node client and the
 * fault behaviour of the coordinator store) are oracles bundled in `Env`.
 * Every call the orchestrator makes on them is recorded in an event trace,
 * and the properties of the close path are stated over that trace.
 */
module LimiterCloser {
  import opened Coordinator

  datatype Option<T> = None | Some(value: T)

  /** A file that has reached its close threshold; the close path only reads its file node. */
  datatype FileLimiter = FileLimiter(fileNode: FileNode)

  /** A disk-node client, identified by the address it talks to. */
  datatype DiskNodeClient = DiskNodeClient(address: string)

  /** A pooled connection; its client may be missing. */
  datatype Connection = Connection(client: Option<DiskNodeClient>)

  /** What a remote `closeFile` call does: return a boolean, or throw. */
  datatype Reply = Returned(closed: bool) | Threw

  /** The synchronizer's single callback: completion with a file node, or failure. */
  datatype SyncVerdict = Complete(fileNode: FileNode) | Error

  datatype Env = Env(
    // the reserved group name of placeholder replicas with no physical target
    virtualGroup: string,
    // the connection pool: a node absent from the map has no connection
    pool: map<DuplicateNode, Connection>,
    // the server-id manager's mapping of (node id, storage id) to the node's second id
    secondId: (string, int) -> string,
    // the path builder: (storage name, second id, create time, file name) to a path
    buildPath: (string, string, int, string) -> string,
    // the reply of the close issued while visiting the node at a given position of the
    // replica list; the position lets two visits with the same client and path differ
    closeFile: (nat, DiskNodeClient, string) -> Reply,
    // whether the coordinator delete following a confirmed close at a given position faults
    deleteFaults: nat -> bool,
    // whether the coordinator delete of an abandoned file faults
    abandonDeleteFaults: bool,
    // the verdict the synchronizer delivers for a file node
    synchronize: FileNode -> SyncVerdict)

  /** One call the orchestrator makes on a collaborator, with its outcome. */
  datatype Event =
    | Synchronize(file: FileNode)
    | GetConnection(node: DuplicateNode)
    | CloseFile(node: DuplicateNode, path: string, reply: Reply)
    | Delete(file: FileNode, threw: bool)

  // ---------------------------------------------------------------------------
  // Specification of closeFileNode
  // ---------------------------------------------------------------------------

  predicate IsVirtual(env: Env, node: DuplicateNode) {
    node.group == env.virtualGroup
  }

  /** The client the pool yields for `node`: none when the connection or its client is null. */
  function ClientOf(env: Env, node: DuplicateNode): Option<DiskNodeClient> {
    if node in env.pool then env.pool[node].client else None
  }

  /** A replica that receives a close call: not virtual, and with a client. */
  predicate Reachable(env: Env, node: DuplicateNode) {
    !IsVirtual(env, node) && ClientOf(env, node).Some?
  }

  /** The path of `f`'s physical copy on `node`. */
  function PathFor(env: Env, f: FileNode, node: DuplicateNode): string {
    env.buildPath(f.storageName, env.secondId(node.id, f.storageId), f.createTime, f.name)
  }

  /** The replica at position `i` is reachable and its close returned true. */
  predicate Confirms(env: Env, f: FileNode, i: nat)
    requires i < |f.duplicateNodes|
  {
    var node := f.duplicateNodes[i];
    Reachable(env, node) && env.closeFile(i, ClientOf(env, node).value, PathFor(env, f, node)) == Returned(true)
  }

  /** The calls made while visiting the replica at position `i`. */
  function NodeEvents(env: Env, f: FileNode, i: nat): seq<Event>
    requires i < |f.duplicateNodes|
  {
    var node := f.duplicateNodes[i];
    if IsVirtual(env, node) then []
    else match ClientOf(env, node)
      case None => [GetConnection(node)]
      case Some(client) =>
        var path := PathFor(env, f, node);
        var reply := env.closeFile(i, client, path);
        [GetConnection(node), CloseFile(node, path, reply)]
          + if reply == Returned(true) then [Delete(f, env.deleteFaults(i))] else []
  }

  /** The calls made while visiting the first `n` replicas, in list order. */
  function ClosingEvents(env: Env, f: FileNode, n: nat): seq<Event>
    requires n <= |f.duplicateNodes|
  {
    if n == 0 then [] else ClosingEvents(env, f, n - 1) + NodeEvents(env, f, n - 1)
  }

  /** Some replica among the first `n` confirmed its close and the delete that followed took effect. */
  predicate Removed(env: Env, f: FileNode, n: nat)
    requires n <= |f.duplicateNodes|
  {
    exists i :: 0 <= i < n && Confirms(env, f, i) && !env.deleteFaults(i)
  }

  /** Visiting one more replica removes the entry exactly when that replica confirms and its delete takes effect. */
  lemma RemovedStep(env: Env, f: FileNode, i: nat)
    requires i < |f.duplicateNodes|
    ensures Removed(env, f, i + 1) <==> Removed(env, f, i) || (Confirms(env, f, i) && !env.deleteFaults(i))
  {
    if Removed(env, f, i + 1) && !Removed(env, f, i) {
      var k :| 0 <= k < i + 1 && Confirms(env, f, k) && !env.deleteFaults(k);
      assert k == i;
    }
  }

  // The three visit lemmas below state what one more replica adds to a trace
  // that already holds `prior` followed by the visits of the first `i` replicas.
  // `prior` carries no meaning of its own: it is the trace before the walk, taken
  // as a parameter so that these equations match the appends in `CloseFileNode`
  // term for term and the method needs no associativity proof of its own.

  /** Visiting a virtual replica adds nothing to the trace and leaves the coordinator entry alone. */
  lemma VisitVirtual(env: Env, f: FileNode, i: nat, prior: seq<Event>)
    requires i < |f.duplicateNodes| && IsVirtual(env, f.duplicateNodes[i])
    ensures prior + ClosingEvents(env, f, i + 1) == prior + ClosingEvents(env, f, i)
    ensures Removed(env, f, i + 1) == Removed(env, f, i)
  {
    RemovedStep(env, f, i);
    assert ClosingEvents(env, f, i + 1) == ClosingEvents(env, f, i) + [];
  }

  /** Visiting a replica without a client adds only its pool lookup and leaves the entry alone. */
  lemma VisitDisconnected(env: Env, f: FileNode, i: nat, prior: seq<Event>)
    requires i < |f.duplicateNodes|
    requires !IsVirtual(env, f.duplicateNodes[i]) && ClientOf(env, f.duplicateNodes[i]).None?
    ensures prior + ClosingEvents(env, f, i + 1) == prior + ClosingEvents(env, f, i) + [GetConnection(f.duplicateNodes[i])]
    ensures Removed(env, f, i + 1) == Removed(env, f, i)
  {
    RemovedStep(env, f, i);
  }

  /**
   * Visiting a reachable replica adds its lookup, its close call and, when
   * the close returned true, a delete; the entry goes when that delete takes effect.
   */
  lemma VisitReachable(env: Env, f: FileNode, i: nat, prior: seq<Event>)
    requires i < |f.duplicateNodes| && Reachable(env, f.duplicateNodes[i])
    ensures var node := f.duplicateNodes[i];
      var path := PathFor(env, f, node);
      var reply := env.closeFile(i, ClientOf(env, node).value, path);
      var visited := prior + ClosingEvents(env, f, i) + [GetConnection(node)] + [CloseFile(node, path, reply)];
      && (reply == Returned(true) ==>
            prior + ClosingEvents(env, f, i + 1) == visited + [Delete(f, env.deleteFaults(i))])
      && (reply != Returned(true) ==> prior + ClosingEvents(env, f, i + 1) == visited)
      && (Removed(env, f, i + 1) <==> Removed(env, f, i) || (reply == Returned(true) && !env.deleteFaults(i)))
  {
    RemovedStep(env, f, i);
  }

  // ---------------------------------------------------------------------------
  // Specification of close
  // ---------------------------------------------------------------------------

  /** The calls made by one close of `file`, the synchronizer's callback included. */
  function CloseEvents(env: Env, file: FileLimiter): seq<Event> {
    [Synchronize(file.fileNode)] +
    match env.synchronize(file.fileNode)
    case Complete(fileNode) => ClosingEvents(env, fileNode, |fileNode.duplicateNodes|)
    case Error => [Delete(file.fileNode, env.abandonDeleteFaults)]
  }

  /** The coordinator's file set after one close of `file`, starting from `files`. */
  function AfterClose(env: Env, file: FileLimiter, files: set<FileNode>): set<FileNode> {
    match env.synchronize(file.fileNode)
    case Complete(fileNode) =>
      if Removed(env, fileNode, |fileNode.duplicateNodes|) then files - {fileNode} else files
    case Error =>
      if env.abandonDeleteFaults then files else files - {file.fileNode}
  }

  // ---------------------------------------------------------------------------
  // Reference views of a trace
  // ---------------------------------------------------------------------------

  /** `e` involves `node` in the pool or over the network. */
  predicate Touches(e: Event, node: DuplicateNode) {
    (e.GetConnection? && e.node == node) || (e.CloseFile? && e.node == node)
  }

  /** A close call that returned true. */
  predicate IsConfirmation(e: Event) {
    e.CloseFile? && e.reply == Returned(true)
  }

  /** The close calls of a trace, as (replica, path) pairs in trace order. */
  function CloseRequests(t: seq<Event>): seq<(DuplicateNode, string)> {
    if t == [] then []
    else (if t[0].CloseFile? then [(t[0].node, t[0].path)] else []) + CloseRequests(t[1..])
  }

  /** The close calls the first `n` replicas should receive: one per reachable replica, in list order. */
  function ExpectedCloses(env: Env, f: FileNode, n: nat): seq<(DuplicateNode, string)>
    requires n <= |f.duplicateNodes|
  {
    if n == 0 then []
    else
      var node := f.duplicateNodes[n - 1];
      ExpectedCloses(env, f, n - 1) + if Reachable(env, node) then [(node, PathFor(env, f, node))] else []
  }

  /**
   * Read from the front, `t` pairs every close that returned true with a
   * delete of `f` right after it, and holds no other delete.
   */
  predicate DeletesPaired(t: seq<Event>, f: FileNode)
    decreases |t|
  {
    if t == [] then true
    else if t[0].Delete? then false
    else if IsConfirmation(t[0]) then |t| >= 2 && t[1].Delete? && t[1].file == f && DeletesPaired(t[2..], f)
    else DeletesPaired(t[1..], f)
  }

  // ---------------------------------------------------------------------------
  // Properties of closeFileNode
  // ---------------------------------------------------------------------------

  /** Virtual replicas are never looked up in the pool and never receive a close call. */
  lemma {:induction false} VirtualNodesUntouched(env: Env, f: FileNode, n: nat, node: DuplicateNode)
    requires n <= |f.duplicateNodes|
    requires IsVirtual(env, node)
    ensures forall e :: e in ClosingEvents(env, f, n) ==> !Touches(e, node)
  {
    if n > 0 {
      var a, b := ClosingEvents(env, f, n - 1), NodeEvents(env, f, n - 1);
      assert ClosingEvents(env, f, n) == a + b;
      assert forall e :: e in a ==> !Touches(e, node) by {
        VirtualNodesUntouched(env, f, n - 1, node);
      }
      assert forall e :: e in b ==> !Touches(e, node) by {
        NodeEventsShape(env, f, n - 1);
      }
    }
  }

  /** Every call made while visiting replica `i` concerns that replica, or deletes `f` after it confirmed. */
  lemma NodeEventsShape(env: Env, f: FileNode, i: nat)
    requires i < |f.duplicateNodes|
    ensures forall e :: e in NodeEvents(env, f, i) ==>
      && !e.Synchronize?
      && (e.GetConnection? || e.CloseFile? ==> e.node == f.duplicateNodes[i] && !IsVirtual(env, e.node))
      && (e.Delete? ==> e == Delete(f, env.deleteFaults(i)) && Confirms(env, f, i))
    ensures Confirms(env, f, i) ==> Delete(f, env.deleteFaults(i)) in NodeEvents(env, f, i)
  {
  }

  /**
   * A replica that is not virtual but has no connection, or a connection
   * without a client, is looked up and then skipped: it receives no close
   * call, no delete follows it, and the next replica is visited.
   */
  lemma DisconnectedNodeSkipped(env: Env, f: FileNode, i: nat)
    requires i < |f.duplicateNodes|
    requires !IsVirtual(env, f.duplicateNodes[i]) && ClientOf(env, f.duplicateNodes[i]).None?
    ensures ClosingEvents(env, f, i + 1) == ClosingEvents(env, f, i) + [GetConnection(f.duplicateNodes[i])]
    ensures CloseRequests(ClosingEvents(env, f, i + 1)) == CloseRequests(ClosingEvents(env, f, i))
    ensures Removed(env, f, i + 1) == Removed(env, f, i)
  {
    CloseRequestsAppend(ClosingEvents(env, f, i), [GetConnection(f.duplicateNodes[i])]);
    if Removed(env, f, i + 1) {
      var k :| 0 <= k < i + 1 && Confirms(env, f, k) && !env.deleteFaults(k);
      assert k != i;
    }
  }

  lemma {:induction false} CloseRequestsAppend(a: seq<Event>, b: seq<Event>)
    ensures CloseRequests(a + b) == CloseRequests(a) + CloseRequests(b)
  {
    if a != [] {
      assert (a + b)[0] == a[0];
      assert (a + b)[1..] == a[1..] + b;
      CloseRequestsAppend(a[1..], b);
    } else {
      assert a + b == b;
    }
  }

  lemma CloseRequestsSingle(e: Event)
    ensures CloseRequests([e]) == if e.CloseFile? then [(e.node, e.path)] else []
  {
    assert [e][1..] == [];
  }

  /**
   * Exactly one close call per reachable replica, in the order of the replica
   * list, each on the path built from the storage name, the replica's second
   * id, the create time and the file name; none for any other replica.
   */
  lemma {:induction false} ClosesInListOrder(env: Env, f: FileNode, n: nat)
    requires n <= |f.duplicateNodes|
    ensures CloseRequests(ClosingEvents(env, f, n)) == ExpectedCloses(env, f, n)
  {
    if n > 0 {
      var a, b := ClosingEvents(env, f, n - 1), NodeEvents(env, f, n - 1);
      var node := f.duplicateNodes[n - 1];
      assert CloseRequests(a) == ExpectedCloses(env, f, n - 1) by {
        ClosesInListOrder(env, f, n - 1);
      }
      assert CloseRequests(a + b) == CloseRequests(a) + CloseRequests(b) by {
        CloseRequestsAppend(a, b);
      }
      assert CloseRequests(b) == if Reachable(env, node) then [(node, PathFor(env, f, node))] else [] by {
        NodeCloseRequests(env, f, n - 1);
      }
    }
  }

  /** Visiting one replica issues a close call to it exactly when it is reachable. */
  lemma NodeCloseRequests(env: Env, f: FileNode, i: nat)
    requires i < |f.duplicateNodes|
    ensures var node := f.duplicateNodes[i];
      CloseRequests(NodeEvents(env, f, i)) == if Reachable(env, node) then [(node, PathFor(env, f, node))] else []
  {
    var node := f.duplicateNodes[i];
    var b := NodeEvents(env, f, i);
    if IsVirtual(env, node) {
    } else if ClientOf(env, node).None? {
      CloseRequestsSingle(GetConnection(node));
    } else {
      var path := PathFor(env, f, node);
      var reply := env.closeFile(i, ClientOf(env, node).value, path);
      var tail := if reply == Returned(true) then [Delete(f, env.deleteFaults(i))] else [];
      assert b == [GetConnection(node)] + ([CloseFile(node, path, reply)] + tail);
      CloseRequestsSingle(GetConnection(node));
      CloseRequestsSingle(CloseFile(node, path, reply));
      if tail != [] { CloseRequestsSingle(tail[0]); }
      CloseRequestsAppend([CloseFile(node, path, reply)], tail);
      CloseRequestsAppend([GetConnection(node)], [CloseFile(node, path, reply)] + tail);
    }
  }

  /**
   * Which close calls are issued does not depend on what earlier closes or
   * deletes did: returning true, returning false and throwing all let the
   * walk go on to every later replica.
   */
  lemma ClosesIgnoreOutcomes(env1: Env, env2: Env, f: FileNode)
    requires env1.virtualGroup == env2.virtualGroup && env1.pool == env2.pool
    requires env1.secondId == env2.secondId && env1.buildPath == env2.buildPath
    ensures CloseRequests(ClosingEvents(env1, f, |f.duplicateNodes|))
         == CloseRequests(ClosingEvents(env2, f, |f.duplicateNodes|))
  {
    ClosesInListOrder(env1, f, |f.duplicateNodes|);
    ClosesInListOrder(env2, f, |f.duplicateNodes|);
    ExpectedClosesIgnoreOutcomes(env1, env2, f, |f.duplicateNodes|);
  }

  lemma {:induction false} ExpectedClosesIgnoreOutcomes(env1: Env, env2: Env, f: FileNode, n: nat)
    requires n <= |f.duplicateNodes|
    requires env1.virtualGroup == env2.virtualGroup && env1.pool == env2.pool
    requires env1.secondId == env2.secondId && env1.buildPath == env2.buildPath
    ensures ExpectedCloses(env1, f, n) == ExpectedCloses(env2, f, n)
  {
    if n > 0 {
      ExpectedClosesIgnoreOutcomes(env1, env2, f, n - 1);
    }
  }

  lemma {:induction false} DeletesPairedAppend(a: seq<Event>, b: seq<Event>, f: FileNode)
    requires DeletesPaired(a, f) && DeletesPaired(b, f)
    ensures DeletesPaired(a + b, f)
  {
    if a == [] {
      assert a + b == b;
    } else if IsConfirmation(a[0]) {
      assert (a + b)[0] == a[0] && (a + b)[1] == a[1];
      assert (a + b)[2..] == a[2..] + b;
      DeletesPairedAppend(a[2..], b, f);
    } else {
      assert (a + b)[0] == a[0];
      assert (a + b)[1..] == a[1..] + b;
      DeletesPairedAppend(a[1..], b, f);
    }
  }

  /** In a paired trace, position `j` holds a delete exactly when a confirmed close stands right before it. */
  lemma {:induction false} DeletesPairedAt(t: seq<Event>, f: FileNode, j: nat)
    requires DeletesPaired(t, f) && j < |t|
    ensures t[j].Delete? <==> 0 < j && IsConfirmation(t[j - 1])
    ensures t[j].Delete? ==> t[j].file == f
    ensures IsConfirmation(t[j]) ==> j + 1 < |t| && t[j + 1].Delete? && t[j + 1].file == f
    decreases |t|
  {
    if IsConfirmation(t[0]) {
      if j >= 2 {
        DeletesPairedAt(t[2..], f, j - 2);
        if j == 2 {
          assert !t[2].Delete? by {
            assert t[2..][0] == t[2];
          }
        }
      }
    } else if j >= 1 {
      DeletesPairedAt(t[1..], f, j - 1);
      if j == 1 {
        assert !t[1].Delete? by {
          assert t[1..][0] == t[1];
        }
      }
    }
  }

  lemma NodeEventsPaired(env: Env, f: FileNode, i: nat)
    requires i < |f.duplicateNodes|
    ensures DeletesPaired(NodeEvents(env, f, i), f)
  {
    var node := f.duplicateNodes[i];
    var b := NodeEvents(env, f, i);
    if Reachable(env, node) {
      var path := PathFor(env, f, node);
      var reply := env.closeFile(i, ClientOf(env, node).value, path);
      if reply == Returned(true) {
        assert b == [GetConnection(node), CloseFile(node, path, reply), Delete(f, env.deleteFaults(i))];
        assert b[1..][2..] == [];
      } else {
        assert b == [GetConnection(node), CloseFile(node, path, reply)];
        assert b[1..][1..] == [];
      }
    } else if !IsVirtual(env, node) {
      assert b[1..] == [];
    }
  }

  lemma {:induction false} ClosingEventsPaired(env: Env, f: FileNode, n: nat)
    requires n <= |f.duplicateNodes|
    ensures DeletesPaired(ClosingEvents(env, f, n), f)
  {
    if n > 0 {
      ClosingEventsPaired(env, f, n - 1);
      NodeEventsPaired(env, f, n - 1);
      DeletesPairedAppend(ClosingEvents(env, f, n - 1), NodeEvents(env, f, n - 1), f);
    }
  }

  /**
   * The coordinator delete is issued right after every close that returned
   * true, and at no other point: never after a close that returned false or
   * threw, never for a skipped replica; and it always deletes the file being closed.
   */
  lemma DeletesExactlyAfterConfirmations(env: Env, f: FileNode, j: nat)
    requires j < |ClosingEvents(env, f, |f.duplicateNodes|)|
    ensures var t := ClosingEvents(env, f, |f.duplicateNodes|);
      && (t[j].Delete? <==> 0 < j && IsConfirmation(t[j - 1]))
      && (t[j].Delete? ==> t[j].file == f)
      && (IsConfirmation(t[j]) ==> j + 1 < |t| && t[j + 1].Delete? && t[j + 1].file == f)
  {
    ClosingEventsPaired(env, f, |f.duplicateNodes|);
    DeletesPairedAt(ClosingEvents(env, f, |f.duplicateNodes|), f, j);
  }

  /** The entry is removed exactly when a delete in the trace took effect. */
  lemma {:induction false} RemovedIffDeleteTookEffect(env: Env, f: FileNode, n: nat)
    requires n <= |f.duplicateNodes|
    ensures Removed(env, f, n) <==> Delete(f, false) in ClosingEvents(env, f, n)
  {
    if n > 0 {
      var a, b := ClosingEvents(env, f, n - 1), NodeEvents(env, f, n - 1);
      assert ClosingEvents(env, f, n) == a + b;
      assert Removed(env, f, n - 1) <==> Delete(f, false) in a by {
        RemovedIffDeleteTookEffect(env, f, n - 1);
      }
      assert Delete(f, false) in b <==> Confirms(env, f, n - 1) && !env.deleteFaults(n - 1) by {
        NodeEventsShape(env, f, n - 1);
      }
      RemovedStep(env, f, n - 1);
    }
  }

  /**
   * If no close returned true, the coordinator is left alone: removal needs a
   * confirmed close in the trace, right before the delete that took effect.
   */
  lemma RemovalNeedsConfirmation(env: Env, f: FileNode)
    requires Removed(env, f, |f.duplicateNodes|)
    ensures exists j :: (0 < j < |ClosingEvents(env, f, |f.duplicateNodes|)|
      && IsConfirmation(ClosingEvents(env, f, |f.duplicateNodes|)[j - 1])
      && ClosingEvents(env, f, |f.duplicateNodes|)[j] == Delete(f, false))
  {
    var t := ClosingEvents(env, f, |f.duplicateNodes|);
    RemovedIffDeleteTookEffect(env, f, |f.duplicateNodes|);
    var j :| 0 <= j < |t| && t[j] == Delete(f, false);
    DeletesExactlyAfterConfirmations(env, f, j);
  }

  /**
   * A confirmed close whose delete took effect removes the entry, whatever
   * happens at the other replicas, before or after it.
   */
  lemma {:induction false} ConfirmationRemoves(env: Env, f: FileNode, n: nat, i: nat)
    requires i < n <= |f.duplicateNodes|
    requires Confirms(env, f, i) && !env.deleteFaults(i)
    ensures Delete(f, false) in ClosingEvents(env, f, n)
  {
    RemovedIffDeleteTookEffect(env, f, n);
  }

  /**
   * Two replicas that both confirm the close each trigger a delete: the walk
   * does not stop at the first confirmation, so the delete is issued twice.
   */
  lemma TwoConfirmationsDeleteTwice(env: Env, f: FileNode)
    requires |f.duplicateNodes| == 2
    requires Confirms(env, f, 0) && Confirms(env, f, 1)
    ensures |ClosingEvents(env, f, 2)| == 6
    ensures ClosingEvents(env, f, 2)[2] == Delete(f, env.deleteFaults(0))
    ensures ClosingEvents(env, f, 2)[5] == Delete(f, env.deleteFaults(1))
  {
    var a, b := f.duplicateNodes[0], f.duplicateNodes[1];
    assert ClosingEvents(env, f, 1) == NodeEvents(env, f, 0);
    assert NodeEvents(env, f, 0) == [GetConnection(a), CloseFile(a, PathFor(env, f, a), Returned(true)), Delete(f, env.deleteFaults(0))];
    assert NodeEvents(env, f, 1) == [GetConnection(b), CloseFile(b, PathFor(env, f, b), Returned(true)), Delete(f, env.deleteFaults(1))];
  }

  /**
   * Replicas A, B, C with C virtual, A confirming and B without a connection:
   * only A receives a close call, and the file leaves the coordinator.
   */
  lemma ScenarioOneConfirmsOneDisconnected(env: Env, f: FileNode)
    requires |f.duplicateNodes| == 3
    requires Confirms(env, f, 0) && !env.deleteFaults(0)
    requires !IsVirtual(env, f.duplicateNodes[1]) && f.duplicateNodes[1] !in env.pool
    requires IsVirtual(env, f.duplicateNodes[2])
    ensures CloseRequests(ClosingEvents(env, f, 3))
         == [(f.duplicateNodes[0], PathFor(env, f, f.duplicateNodes[0]))]
    ensures Removed(env, f, 3)
  {
    ClosesInListOrder(env, f, 3);
    assert ExpectedCloses(env, f, 1) == [(f.duplicateNodes[0], PathFor(env, f, f.duplicateNodes[0]))];
  }

  // ---------------------------------------------------------------------------
  // Properties of close
  // ---------------------------------------------------------------------------

  lemma {:induction false} NoSynchronizeWhileClosing(env: Env, f: FileNode, n: nat)
    requires n <= |f.duplicateNodes|
    ensures forall e :: e in ClosingEvents(env, f, n) ==> !e.Synchronize?
  {
    if n > 0 {
      var a, b := ClosingEvents(env, f, n - 1), NodeEvents(env, f, n - 1);
      assert ClosingEvents(env, f, n) == a + b;
      assert forall e :: e in a ==> !e.Synchronize? by {
        NoSynchronizeWhileClosing(env, f, n - 1);
      }
      assert forall e :: e in b ==> !e.Synchronize? by {
        NodeEventsShape(env, f, n - 1);
      }
    }
  }

  /** One close asks the synchronizer exactly once, first, with the limiter's own file node. */
  lemma SynchronizeOnce(env: Env, file: FileLimiter)
    ensures |CloseEvents(env, file)| > 0 && CloseEvents(env, file)[0] == Synchronize(file.fileNode)
    ensures forall j :: 0 < j < |CloseEvents(env, file)| ==> !CloseEvents(env, file)[j].Synchronize?
  {
    var t := CloseEvents(env, file);
    match env.synchronize(file.fileNode)
    case Complete(fileNode) =>
      var rest := ClosingEvents(env, fileNode, |fileNode.duplicateNodes|);
      NoSynchronizeWhileClosing(env, fileNode, |fileNode.duplicateNodes|);
      forall j | 0 < j < |t| ensures !t[j].Synchronize? {
        assert t[j] == rest[j - 1];
        assert rest[j - 1] in rest;
      }
    case Error =>
  }

  /**
   * When the synchronizer fails, the limiter's own file node is deleted and
   * no replica is contacted; unless that delete faults, the entry is gone.
   * An `other` environment that differs only in its pool, server ids, paths
   * and replica replies leads to the same calls and the same store.
   */
  lemma AbandonDeletesRegardless(env: Env, other: Env, file: FileLimiter, files: set<FileNode>)
    requires env.synchronize(file.fileNode) == Error
    requires other.synchronize == env.synchronize && other.abandonDeleteFaults == env.abandonDeleteFaults
    ensures CloseEvents(env, file) == [Synchronize(file.fileNode), Delete(file.fileNode, env.abandonDeleteFaults)]
    ensures !env.abandonDeleteFaults ==> file.fileNode !in AfterClose(env, file, files)
    ensures env.abandonDeleteFaults ==> AfterClose(env, file, files) == files
    ensures CloseEvents(other, file) == CloseEvents(env, file) && AfterClose(other, file, files) == AfterClose(env, file, files)
  {
  }

  /**
   * After a completed synchronization, the entry of the completed file node is
   * gone exactly when some replica confirmed its close and the delete that
   * followed took effect; otherwise the coordinator is unchanged.
   */
  lemma CompletedCloseOutcome(env: Env, file: FileLimiter, files: set<FileNode>)
    requires env.synchronize(file.fileNode).Complete?
    ensures var fileNode := env.synchronize(file.fileNode).fileNode;
      && AfterClose(env, file, files) <= files
      && (fileNode !in AfterClose(env, file, files) <==>
            fileNode !in files || Delete(fileNode, false) in CloseEvents(env, file))
      && AfterClose(env, file, files) - {fileNode} == files - {fileNode}
  {
    var fileNode := env.synchronize(file.fileNode).fileNode;
    var n := |fileNode.duplicateNodes|;
    RemovedIffDeleteTookEffect(env, fileNode, n);
    assert CloseEvents(env, file) == [Synchronize(file.fileNode)] + ClosingEvents(env, fileNode, n);
  }

  // ---------------------------------------------------------------------------
  // The orchestrator
  // ---------------------------------------------------------------------------

  class FileLimiterCloser {
    const env: Env
    const coordinator: FileCoordinator
    /** The calls made so far, in order. */
    var log: seq<Event>

    constructor (env: Env, coordinator: FileCoordinator)
      ensures this.env == env && this.coordinator == coordinator && log == []
    {
      this.env := env;
      this.coordinator := coordinator;
      log := [];
    }

    /** Hands the limiter's file node to the synchronizer with a checker bound to this limiter. */
    method Close(file: FileLimiter)
      modifies this, coordinator
      ensures log == old(log) + CloseEvents(env, file)
      ensures coordinator.files == AfterClose(env, file, old(coordinator.files))
    {
      log := log + [Synchronize(file.fileNode)];
      var checker := new FileCloseConditionChecker(this, file);
      match env.synchronize(file.fileNode)
      case Complete(fileNode) =>
        checker.Complete(fileNode);
      case Error =>
        checker.Error();
    }

    /**
     * Walks the replicas in order: skips virtual ones and ones without a
     * client, sends every other one a close call, and deletes the coordinator
     * entry after each close that returns true. A throwing close or delete
     * ends only the visit of that replica.
     */
    method CloseFileNode(fileNode: FileNode)
      modifies this, coordinator
      ensures log == old(log) + ClosingEvents(env, fileNode, |fileNode.duplicateNodes|)
      ensures coordinator.files == if Removed(env, fileNode, |fileNode.duplicateNodes|)
        then old(coordinator.files) - {fileNode} else old(coordinator.files)
    {
      var nodes := fileNode.duplicateNodes;
      for i := 0 to |nodes|
        invariant log == old(log) + ClosingEvents(env, fileNode, i)
        invariant coordinator.files == if Removed(env, fileNode, i)
          then old(coordinator.files) - {fileNode} else old(coordinator.files)
      {
        var node := nodes[i];
        if node.group == env.virtualGroup {
          VisitVirtual(env, fileNode, i, old(log));
          continue;
        }

        log := log + [GetConnection(node)];
        var connection := if node in env.pool then Some(env.pool[node]) else None;
        if connection.None? || connection.value.client.None? {
          VisitDisconnected(env, fileNode, i, old(log));
          continue;
        }

        var client := connection.value.client.value;
        var serverId := env.secondId(node.id, fileNode.storageId);
        var filePath := env.buildPath(fileNode.storageName, serverId, fileNode.createTime, fileNode.name);

        var reply := env.closeFile(i, client, filePath);
        log := log + [CloseFile(node, filePath, reply)];
        if reply == Returned(true) {
          var threw := coordinator.Delete(fileNode, env.deleteFaults(i));
          log := log + [Delete(fileNode, threw)];
        }
        VisitReachable(env, fileNode, i, old(log));
      }
    }
  }

  /** The synchronizer callback bound to one limiter. */
  class FileCloseConditionChecker {
    const closer: FileLimiterCloser
    const file: FileLimiter

    constructor (closer: FileLimiterCloser, file: FileLimiter)
      ensures this.closer == closer && this.file == file
    {
      this.closer := closer;
      this.file := file;
    }

    /** Synchronization finished: close the file node it hands back. */
    method Complete(fileNode: FileNode)
      modifies closer, closer.coordinator
      ensures closer.log == old(closer.log) + ClosingEvents(closer.env, fileNode, |fileNode.duplicateNodes|)
      ensures closer.coordinator.files == if Removed(closer.env, fileNode, |fileNode.duplicateNodes|)
        then old(closer.coordinator.files) - {fileNode} else old(closer.coordinator.files)
    {
      closer.CloseFileNode(fileNode);
    }

    /** Synchronization failed: give the file up and delete its entry, swallowing a fault. */
    method Error()
      modifies closer, closer.coordinator
      ensures closer.log == old(closer.log) + [Delete(file.fileNode, closer.env.abandonDeleteFaults)]
      ensures closer.coordinator.files == if closer.env.abandonDeleteFaults
        then old(closer.coordinator.files) else old(closer.coordinator.files) - {file.fileNode}
    {
      var threw := closer.coordinator.Delete(file.fileNode, closer.env.abandonDeleteFaults);
      closer.log := closer.log + [Delete(file.fileNode, threw)];
    }
  }
}
