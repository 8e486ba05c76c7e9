/** The partition graph and the operation sequence as objects.
 *
 * `PartitionGraph` keeps the graph state, which operations change in place;
 * `OperationSequence` keeps its operations in the list `sequence`, which
 * `AddFirst` extends at the head. Each method is proved against the value
 * model in module `Operations`.
 */
module Graph {
  import opened Operations

  /** The graph that operations are applied to. Its state is opaque; `leafCommit`
      says what committing a leaf does to it. `leafLog` records, in order, every
      leaf that has reached the graph. */
  class PartitionGraph<S, L> {
    const leafCommit: LeafCommit<S, L>
    var state: S
    ghost var leafLog: seq<L>

    constructor (leafCommit: LeafCommit<S, L>, initial: S)
      ensures this.leafCommit == leafCommit && state == initial && leafLog == []
    {
      this.leafCommit := leafCommit;
      state := initial;
      leafLog := [];
    }

    /** Commits `op` to this graph and returns its inverse; a sequence commits itself. */
    method Apply(op: Op<L>) returns (inverse: Op<L>)
      modifies this
      decreases op
      ensures (state, inverse) == ApplyOp(leafCommit, old(state), op)
      ensures leafLog == old(leafLog) + Leaves([op])
    {
      assert [op][0] == op && [op][1..] == [];
      match op
      case Leaf(l) =>
        var (t, inv) := leafCommit(state, l);
        state := t;
        leafLog := leafLog + [l];
        inverse := Leaf(inv);
      case Sequence(ops) =>
        var nested := new OperationSequence<L>();
        nested.sequence := ops;
        var rewind := nested.Commit(this);
        inverse := Sequence(rewind.sequence);
    }
  }

  /** A list of operations committed together as one. */
  class OperationSequence<L> {
    var sequence: seq<Op<L>>

    constructor ()
      ensures sequence == []
    {
      sequence := [];
    }

    /** Puts `operation` before the head of the sequence. */
    method AddFirst(operation: Op<L>)
      modifies this
      ensures sequence == [operation] + old(sequence)
      ensures |sequence| == |old(sequence)| + 1
    {
      sequence := [operation] + sequence;
    }

    /** Applies the operations to `g` first to last and returns the rewind
        sequence: the returned inverses, the last one first. The receiver's own
        list is left as it was. */
    method Commit<S>(g: PartitionGraph<S, L>) returns (rewind: OperationSequence<L>)
      modifies g
      decreases sequence
      ensures fresh(rewind)
      ensures sequence == old(sequence)
      ensures (g.state, rewind.sequence) == Operations.Commit(g.leafCommit, old(g.state), sequence)
      ensures g.leafLog == old(g.leafLog) + Leaves(sequence)
      ensures |rewind.sequence| == |sequence|
      ensures sequence == [] ==> g.state == old(g.state) && rewind.sequence == []
    {
      rewind := new OperationSequence<L>();
      ghost var s0, log0 := g.state, g.leafLog;
      for i := 0 to |sequence|
        invariant fresh(rewind)
        invariant (g.state, rewind.sequence) == Operations.Commit(g.leafCommit, s0, sequence[..i])
        invariant g.leafLog == log0 + Leaves(sequence[..i])
      {
        assert sequence[..i + 1] == sequence[..i] + [sequence[i]];
        CommitSnoc(g.leafCommit, s0, sequence[..i], sequence[i]);
        LeavesAppend(sequence[..i], [sequence[i]]);
        var inverse := g.Apply(sequence[i]);
        rewind.AddFirst(inverse);
      }
      assert sequence[..|sequence|] == sequence;
      CommitLength(g.leafCommit, s0, sequence);
    }
  }

  /** Committing a sequence and then its rewind sequence leaves the graph as it
      was, provided every leaf's inverse is exact. */
  method CommitThenRewind<S(!new), L(!new)>(operations: OperationSequence<L>, g: PartitionGraph<S, L>)
    requires ExactInverses(g.leafCommit)
    modifies g
    ensures g.state == old(g.state)
  {
    var rewind := operations.Commit(g);
    var rewindOfRewind := rewind.Commit(g);
    CommitUndone(g.leafCommit, old(g.state), operations.sequence);
  }
}
