# Replica close orchestrator of BRFS, in Dafny

This project models `FileLimiterCloser`, the component of BRFS's duplication layer that closes a
logical file once it reaches its close threshold (a "file limiter"). The file is stored as several
physical copies ("duplicate nodes") on different disk nodes. The orchestrator:

- hands the limiter's file node to the file synchronizer, together with a callback
  (`FileCloseConditionChecker`) bound to that limiter;
- on `complete(fileNode)`, walks the file's duplicate nodes in list order. It skips replicas of the
  virtual service group. It also skips replicas whose pooled connection, or that connection's client,
  is missing. Every other replica gets a remote `closeFile` on a path built from the storage name,
  the replica's second id, the create time and the file name. Each close that returns `true` is
  followed by a coordinator `delete` of the file node. A throwing close or delete is swallowed and the
  walk goes on;
- on `error`, deletes the limiter's own file node from the coordinator and swallows any failure of
  that delete.

The collaborators whose code is not part of this model are oracles, bundled in the datatype
`LimiterCloser.Env`:

- the synchronizer's verdict, `Complete(fileNode) | Error`;
- the connection pool, as a map from duplicate node to a connection whose client may be missing;
- `ServerIDManager.getOtherSecondID` and `FilePathBuilder.buildFilePath`, as uninterpreted functions;
- the disk-node client's `closeFile`, as a reply oracle `Returned(bool) | Threw`;
- faults of the coordinator store.

`FileCoordinator` is a class whose `files` set the delete updates. A delete of an absent entry is
not an error. A faulting delete leaves the store unchanged.

`FileLimiterCloser` is a class with two constants and one variable. `coordinator` is the source's
`fileCoordinator` field. `env` bundles the `fileRecovery`, `connectionPool` and `idManager`
collaborators with `VIRTUAL_SERVICE_GROUP` and the reply and fault oracles above. `log` is added by
the model and has no counterpart in the source. `FileCloseConditionChecker` keeps the source's `file`
field and, as an explicit `closer` field, the enclosing instance that the inner class reaches
implicitly. The methods of both classes append every call they make (pool lookup, close RPC with its
reply, delete with its outcome, synchronize) to the trace `log`. `CloseFileNode` is the source's `for` loop with its two `continue`s.
Its loop invariant ties `log` to the specification function `ClosingEvents` and the coordinator's
set to the predicate `Removed`. The lemmas then prove the properties of the close path over that
specification.

The close path deletes the coordinator entry on every confirming replica and does not stop at the
first one. The model keeps this: `TwoConfirmationsDeleteTwice` shows the delete being issued twice.
This means the entry is dropped as soon as one replica confirms, while other replicas may still be
open. The model records this as the source's design, not as a defect.

## Model

| member | source | states |
|---|---|---|
| `Coordinator.FileCoordinator.Delete` | FS_Server/src/main/java/com/bonree/brfs/duplication/datastream/file/FileLimiterCloser.java:68 | the coordinator delete removes the file node, and deleting an absent entry is no error; a faulting delete reports the fault and leaves the store unchanged |
| `LimiterCloser.FileLimiterCloser.constructor` | FS_Server/src/main/java/com/bonree/brfs/duplication/datastream/file/FileLimiterCloser.java:28-38 | the closer keeps the collaborators it is given and has made no call yet |
| `LimiterCloser.FileLimiterCloser.Close` | FS_Server/src/main/java/com/bonree/brfs/duplication/datastream/file/FileLimiterCloser.java:40-43 | one close first asks the synchronizer about the limiter's file node, then runs exactly the callback the synchronizer delivers; trace and store end as `CloseEvents` and `AfterClose` say |
| `LimiterCloser.FileLimiterCloser.CloseFileNode` | FS_Server/src/main/java/com/bonree/brfs/duplication/datastream/file/FileLimiterCloser.java:45-74 | the walk appends exactly the calls of all replica visits in list order, and the entry is removed iff some replica confirmed and the delete after it took effect; otherwise the store is unchanged |
| `LimiterCloser.FileCloseConditionChecker.constructor` | FS_Server/src/main/java/com/bonree/brfs/duplication/datastream/file/FileLimiterCloser.java:76-81 | the callback is bound to one closer and one limiter |
| `LimiterCloser.FileCloseConditionChecker.Complete` | FS_Server/src/main/java/com/bonree/brfs/duplication/datastream/file/FileLimiterCloser.java:83-87 | completion closes the file node the synchronizer hands back, with the same effect as `CloseFileNode` on it |
| `LimiterCloser.FileCloseConditionChecker.Error` | FS_Server/src/main/java/com/bonree/brfs/duplication/datastream/file/FileLimiterCloser.java:89-98 | failure deletes the limiter's own file node and nothing else; a fault of that delete is swallowed and leaves the store unchanged |
| `LimiterCloser.VirtualNodesUntouched` | FS_Server/src/main/java/com/bonree/brfs/duplication/datastream/file/FileLimiterCloser.java:48-51 | a replica of the virtual group is never looked up in the pool and never receives a close call |
| `LimiterCloser.DisconnectedNodeSkipped` | FS_Server/src/main/java/com/bonree/brfs/duplication/datastream/file/FileLimiterCloser.java:53-57 | a non-virtual replica with no connection or no client adds only its lookup: no close call, no delete, no change to the removal outcome |
| `LimiterCloser.ClosesInListOrder` | FS_Server/src/main/java/com/bonree/brfs/duplication/datastream/file/FileLimiterCloser.java:47-65 | the close calls of the trace are exactly one per non-virtual connected replica, in list order, each on `buildFilePath(storageName, getOtherSecondID(id, storageId), createTime, name)` |
| `LimiterCloser.ClosesIgnoreOutcomes` | FS_Server/src/main/java/com/bonree/brfs/duplication/datastream/file/FileLimiterCloser.java:63-73 | the close calls issued do not depend on any close or delete outcome (true, false, exception): neither a success nor an exception stops the walk |
| `LimiterCloser.DeletesExactlyAfterConfirmations` | FS_Server/src/main/java/com/bonree/brfs/duplication/datastream/file/FileLimiterCloser.java:65-69 | a trace position holds a delete iff the call right before it is a close that returned true, and every such delete is of the file being closed; in the other direction, every close that returned true is directly followed by a delete of that file |
| `LimiterCloser.RemovedIffDeleteTookEffect` | FS_Server/src/main/java/com/bonree/brfs/duplication/datastream/file/FileLimiterCloser.java:65-69 | the entry is removed iff the trace holds a delete of the file that did not fault |
| `LimiterCloser.RemovalNeedsConfirmation` | FS_Server/src/main/java/com/bonree/brfs/duplication/datastream/file/FileLimiterCloser.java:65-69 | removal implies a close that returned true, directly followed by the effective delete; so if no close returns true the coordinator is left alone |
| `LimiterCloser.ConfirmationRemoves` | FS_Server/src/main/java/com/bonree/brfs/duplication/datastream/file/FileLimiterCloser.java:67-73 | one confirmed close whose delete does not fault puts an effective delete in the trace, whatever the other replicas do |
| `LimiterCloser.TwoConfirmationsDeleteTwice` | FS_Server/src/main/java/com/bonree/brfs/duplication/datastream/file/FileLimiterCloser.java:67-73 | with two confirming replicas the delete is issued after each, so the loop does not break after the first confirmation |
| `LimiterCloser.ScenarioOneConfirmsOneDisconnected` | FS_Server/src/main/java/com/bonree/brfs/duplication/datastream/file/FileLimiterCloser.java:47-73 | replicas A, B, C with C virtual, A confirming and B unconnected: only A gets a close call and the file leaves the coordinator |
| `LimiterCloser.SynchronizeOnce` | FS_Server/src/main/java/com/bonree/brfs/duplication/datastream/file/FileLimiterCloser.java:41-43 | a close calls the synchronizer exactly once, as its first call, with the limiter's own file node |
| `LimiterCloser.AbandonDeletesRegardless` | FS_Server/src/main/java/com/bonree/brfs/duplication/datastream/file/FileLimiterCloser.java:90-98 | on synchronizer error the only further call is the delete of the limiter's file node, which removes it unless the store faults; pool, ids, paths and replica replies make no difference |
| `LimiterCloser.CompletedCloseOutcome` | FS_Server/src/main/java/com/bonree/brfs/duplication/datastream/file/FileLimiterCloser.java:84-87 | after a completed synchronization, the close only ever removes the completed file node, and removes it iff the trace holds an effective delete of it |

## Left out

- Logging: every `LOG` call is dropped.
- The asynchronous delivery of the synchronizer's callback is modelled as one sequential call inside
  `Close`. The synchronizer's own reconciliation is not part of this model; its verdict is an oracle.
- `close` declares `throws Exception`: an exception thrown by `synchronize` itself, before any
  callback, is not modelled.
- `getConnection`, `getOtherSecondID` and `buildFilePath` are assumed not to throw. In the source
  they run outside the `try`, so an exception there would end the walk. The model has no such path.
- The connection pool is a fixed map. Lazy connection creation and concurrent use are not modelled.
- The string format of `FilePathBuilder.buildFilePath`, the mapping of `ServerIDManager` and the value
  of `VIRTUAL_SERVICE_GROUP` are not part of this model. They are parameters of `Env`.
- The disk-node client's transport is reduced to its reply: a boolean or an exception.
- What a faulting coordinator delete does to the store is not visible. The model assumes it leaves
  the store unchanged.
- The `serviceManager` field is stored by the constructor but used nowhere in this class. The model
  does not carry it.
- `FileLimiter` is reduced to its file node, the only part the close path reads.
- Coordinator.FileCoordinator.Delete: the store is a set of whole `FileNode` values, so a delete
  removes only an entry equal to its argument in every field. The coordinator's own matching of
  entries is not part of this model. One consequence: when the synchronizer's `Complete` carries a
  changed copy of the node (for example a different replica list), the walk's deletes leave the
  limiter's original entry in place.
- LimiterCloser.FileLimiterCloser.Close: the oracles in `Env` are fixed for the closer's whole life,
  so the model cannot make two calls differ where the oracle's arguments agree. Every close of the
  same file node gets the same synchronizer verdict. A close call gets the same reply whenever its
  replica position, client and path are the same. A delete fault depends only on the replica
  position, whatever the file. Every abandoned file shares one delete fault,
  `abandonDeleteFaults`. Each property is stated for all `Env`s, so it holds for any single close
  whatever the oracles answer; what the model does not cover is independent outcomes across
  repeated closes on one closer.
