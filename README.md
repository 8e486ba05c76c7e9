# Reversible operation sequences of the Synoptic partition graph

Synoptic infers a finite-state model from execution logs by refining and
coarsening a partition graph. Every change to that graph is an operation
(a split, a merge, or an `OperationSequence` of operations). Committing an
operation to the graph returns its inverse. `OperationSequence.commit`
applies its operations in list order through `PartitionGraph.apply`. It
puts each returned inverse at the head of a fresh `OperationSequence`, the
*rewind* operation. Committing the rewind undoes the whole sequence, which is
how a merge that breaks a mined invariant is rolled back.

This project models that mechanism in two modules:

- `Operations` (operations.dfy) is the value model. `Op<L>` is an operation:
  `Leaf(l)` for a split or merge, `Sequence(ops)` for an operation sequence.
  The graph is an opaque state `S`, and what a leaf does to it is a parameter
  `f: (S, L) -> (S, L)` returning the new state and the leaf's inverse.
  `ApplyOp` is `PartitionGraph.apply`, which dispatches a sequence to its own
  commit. `Commit` is `OperationSequence.commit`. `StateAfter` and
  `InverseAt` are reference definitions of a first-to-last pass: the state
  after the first `k` operations, and the inverse returned by the `k`-th apply
  call. `ExactInverses(f)` is the hypothesis that committing any leaf's
  inverse right after it restores the earlier state.
- `Graph` (graph.dfy) is the object model. `PartitionGraph` holds the state,
  which `Apply` changes in place. `OperationSequence` holds the list
  `sequence`, which `AddFirst` extends at the head. `Commit` is a loop over
  `sequence` that calls `g.Apply` and `rewind.AddFirst`. Its invariants tie
  the graph state and the rewind list to the value model on the prefix
  committed so far. A ghost `leafLog` on the graph records every leaf that
  reaches it, in order.

## Model

| member | source | states |
|---|---|---|
| Graph.OperationSequence.constructor | synoptic/src/synoptic/algorithms/graph/OperationSequence.java:13 | a new operation sequence holds no operations |
| Graph.OperationSequence.AddFirst | synoptic/src/synoptic/algorithms/graph/OperationSequence.java:30-32 | `operation` becomes the head, the earlier operations follow it in their old order, and the length grows by one |
| Graph.OperationSequence.Commit | synoptic/src/synoptic/algorithms/graph/OperationSequence.java:16-22 | the new graph state and the returned rewind list are those of the value model's commit; the rewind object is freshly allocated; the receiver's list is unchanged; the leaves of the sequence reach the graph exactly once each, in list order; the rewind has one entry per operation; an empty sequence leaves the graph unchanged and returns an empty rewind |
| Graph.PartitionGraph.Apply | synoptic/src/synoptic/algorithms/graph/OperationSequence.java:19 | applying an operation sets the graph state and returns the inverse as the value model says; a sequence is committed through `OperationSequence.Commit`; the operation's leaves are appended to the leaf log in order |
| Graph.CommitThenRewind | synoptic/src/synoptic/algorithms/graph/OperationSequence.java:17-21 | with exact leaf inverses, committing a sequence and then the rewind it returned leaves the graph state as it was before |
| Operations.CommitSnoc | synoptic/src/synoptic/algorithms/graph/OperationSequence.java:18-20 | one loop step: committing one more operation applies it to the state reached so far and puts its inverse in front of the rewind built so far |
| Operations.CommitAppend | synoptic/src/synoptic/algorithms/graph/OperationSequence.java:17-21 | committing `a + b` is committing `a` and then `b`; its rewind is the rewind of `b` followed by the rewind of `a` |
| Operations.CommitLength | synoptic/src/synoptic/algorithms/graph/OperationSequence.java:18-19 | the rewind list has as many entries as the committed sequence |
| Operations.CommitState | synoptic/src/synoptic/algorithms/graph/OperationSequence.java:18-19 | the graph ends in the state reached by applying the operations one at a time, first to last |
| Operations.CommitRewindAt | synoptic/src/synoptic/algorithms/graph/OperationSequence.java:17-21 | entry `j` of the rewind list is the inverse returned by apply call number `n - 1 - j`, the call made on the state after the first `n - 1 - j` operations: the rewind is the returned inverses in reverse order |
| Operations.LeavesAppend | synoptic/src/synoptic/algorithms/graph/OperationSequence.java:18-19 | the leaves reached by committing `a + b` are those of `a` followed by those of `b` |
| Operations.ApplyOpUndone | synoptic/src/synoptic/algorithms/graph/OperationSequence.java:16-22 | with exact leaf inverses, applying the inverse that applying any operation returned restores the state it was applied to |
| Operations.CommitUndone | synoptic/src/synoptic/algorithms/graph/OperationSequence.java:17-21 | with exact leaf inverses, committing the rewind sequence returned by a commit restores the graph to its state before that commit, for nested sequences too |

## Left out

- `PartitionGraph`, its `apply` method, the `IOperation` interface and the concrete split and merge operations are not part of this model. The graph is an opaque state. A leaf's effect and inverse are the parameter `leafCommit`. `PartitionGraph.Apply` is modelled as plain dispatch: a leaf goes to `leafCommit`, a sequence to `OperationSequence.Commit`. Any bookkeeping the real `apply` does beyond that is not modelled.
- That each leaf's inverse is exact is a hypothesis (`ExactInverses`), not a proved fact, because the split and merge code is not available.
- Operations inside a sequence are values, not shared objects. A nested `OperationSequence` is its list of operations. Aliasing between operation objects, and changes to a nested sequence after it was added, are not captured.
- The Java `LinkedList` is a Dafny `seq`. Java's failure modes (a `null` operation, an exception thrown by `apply` part-way through a commit) are not modelled.
- synoptic/src/synoptic/main/SynopticOptions.java is command-line option parsing, args-file reading and reflection over an external options library; it is not part of this model.
- synopticgwt/src/synopticgwt/client/model/LogInfoPanel.java is a browser UI panel; it is not part of this model.
- synoptic/src/synoptic/util/InternalSynopticException.java wraps Java exceptions and stack traces; it is not part of this model.
- InvariMint/src/tests/integration/EndToEndMainTests.java runs the whole tool on files on disk; it is not part of this model.
