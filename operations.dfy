/** Reversible graph operations, as values.
 *
 * A partition-graph mutation is either a leaf operation (a split or a merge,
 * whose internals are not part of this model) or an `OperationSequence`, an
 * ordered list of operations. Committing an operation to the graph yields a
 * new graph state and the operation's inverse. The graph itself is an opaque
 * state `S`; what a leaf does to it is the parameter `f`, which returns the
 * new state and the inverse leaf.
 */
module Operations {

  /** An operation: a leaf (split, merge, ...) or a sequence of operations. */
  datatype Op<L> = Leaf(leaf: L) | Sequence(ops: seq<Op<L>>)

  /** What committing one leaf does: the new graph state and the leaf that undoes it. */
  type LeafCommit<!S, !L> = (S, L) -> (S, L)

  /** Every leaf's returned inverse, committed right after it, restores the
      state the leaf was committed to. */
  ghost predicate ExactInverses<S(!new), L(!new)>(f: LeafCommit<S, L>)
  {
    forall s: S, l: L :: f(f(s, l).0, f(s, l).1).0 == s
  }

  /** `g.apply(op)`: commits `op` to state `s`, giving the new state and `op`'s inverse.
      A sequence dispatches to its own commit. */
  function ApplyOp<S, L>(f: LeafCommit<S, L>, s: S, op: Op<L>): (S, Op<L>)
    decreases op
  {
    match op
    case Leaf(l) =>
      var (t, inv) := f(s, l);
      (t, Leaf(inv))
    case Sequence(ops) =>
      var (t, rewind) := Commit(f, s, ops);
      (t, Sequence(rewind))
  }

  /** `OperationSequence.commit`: applies `ops` first to last and collects each
      returned inverse at the head of the rewind list. */
  function Commit<S, L>(f: LeafCommit<S, L>, s: S, ops: seq<Op<L>>): (S, seq<Op<L>>)
    decreases ops
  {
    if |ops| == 0 then (s, [])
    else
      var (s1, inv) := ApplyOp(f, s, ops[0]);
      var (s2, rewind) := Commit(f, s1, ops[1..]);
      (s2, rewind + [inv])
  }

  /** Reference definition: the state after applying `ops` one at a time, first to last. */
  function StateAfter<S, L>(f: LeafCommit<S, L>, s: S, ops: seq<Op<L>>): S
    decreases |ops|
  {
    if |ops| == 0 then s
    else ApplyOp(f, StateAfter(f, s, ops[..|ops| - 1]), ops[|ops| - 1]).0
  }

  /** Reference definition: the inverse returned by the `k`-th apply call of a
      first-to-last pass over `ops` starting from `s`. */
  function InverseAt<S, L>(f: LeafCommit<S, L>, s: S, ops: seq<Op<L>>, k: nat): Op<L>
    requires k < |ops|
  {
    ApplyOp(f, StateAfter(f, s, ops[..k]), ops[k]).1
  }

  /** The leaves reached by committing `ops`, in the order they reach the graph. */
  function Leaves<L>(ops: seq<Op<L>>): seq<L>
    decreases ops
  {
    if |ops| == 0 then []
    else
      (match ops[0]
       case Leaf(l) => [l]
       case Sequence(sub) => Leaves(sub)) + Leaves(ops[1..])
  }

  /** Committing `a + b` commits `a` then `b`; the rewind is `b`'s rewind followed by `a`'s. */
  lemma {:induction false} CommitAppend<S, L>(f: LeafCommit<S, L>, s: S, a: seq<Op<L>>, b: seq<Op<L>>)
    ensures var (s1, r1) := Commit(f, s, a);
            var (s2, r2) := Commit(f, s1, b);
            Commit(f, s, a + b) == (s2, r2 + r1)
    decreases a
  {
    if |a| == 0 {
      assert a + b == b;
      assert Commit(f, s, a) == (s, []);
      var r2 := Commit(f, s, b).1;
      assert r2 + [] == r2;
    } else {
      assert (a + b)[0] == a[0];
      assert (a + b)[1..] == a[1..] + b;
      var (s1, inv) := ApplyOp(f, s, a[0]);
      CommitAppend(f, s1, a[1..], b);
      var (t, r1) := Commit(f, s1, a[1..]);
      var r2 := Commit(f, t, b).1;
      assert (r2 + r1) + [inv] == r2 + (r1 + [inv]);
    }
  }

  /** One loop step of commit: appending `op` applies it last and puts its inverse first. */
  lemma CommitSnoc<S, L>(f: LeafCommit<S, L>, s: S, ops: seq<Op<L>>, op: Op<L>)
    ensures var (t, rewind) := Commit(f, s, ops);
            var (u, inv) := ApplyOp(f, t, op);
            Commit(f, s, ops + [op]) == (u, [inv] + rewind)
  {
    CommitAppend(f, s, ops, [op]);
    var t := Commit(f, s, ops).0;
    var (u, inv) := ApplyOp(f, t, op);
    assert [op][0] == op && [op][1..] == [];
    assert Commit(f, u, []) == (u, []);
    assert [] + [inv] == [inv];
    assert Commit(f, t, [op]) == (u, [inv]);
  }

  /** The rewind list has one inverse per committed operation. */
  lemma {:induction false} CommitLength<S, L>(f: LeafCommit<S, L>, s: S, ops: seq<Op<L>>)
    ensures |Commit(f, s, ops).1| == |ops|
    decreases ops
  {
    if |ops| > 0 {
      CommitLength(f, ApplyOp(f, s, ops[0]).0, ops[1..]);
    }
  }

  /** Committing leaves the graph in the state reached by applying the operations first to last. */
  lemma {:induction false} CommitState<S, L>(f: LeafCommit<S, L>, s: S, ops: seq<Op<L>>)
    ensures Commit(f, s, ops).0 == StateAfter(f, s, ops)
    decreases |ops|
  {
    if |ops| > 0 {
      var n := |ops| - 1;
      assert ops == ops[..n] + [ops[n]];
      CommitSnoc(f, s, ops[..n], ops[n]);
      CommitState(f, s, ops[..n]);
    }
  }

  /** The rewind list is the list of returned inverses reversed: its `j`-th entry is
      the inverse returned by the `(|ops| - 1 - j)`-th apply call. */
  lemma {:induction false} CommitRewindAt<S, L>(f: LeafCommit<S, L>, s: S, ops: seq<Op<L>>, j: nat)
    requires j < |ops|
    ensures |Commit(f, s, ops).1| == |ops|
    ensures Commit(f, s, ops).1[j] == InverseAt(f, s, ops, |ops| - 1 - j)
    decreases |ops|
  {
    var n := |ops| - 1;
    var init := ops[..n];
    assert ops == init + [ops[n]];
    CommitSnoc(f, s, init, ops[n]);
    CommitState(f, s, init);
    CommitLength(f, s, init);
    if j > 0 {
      CommitRewindAt(f, s, init, j - 1);
      var k := n - j;
      assert init[..k] == ops[..k];
      assert init[k] == ops[k];
    }
  }

  /** The leaves of `a + b` are those of `a` followed by those of `b`. */
  lemma {:induction false} LeavesAppend<L>(a: seq<Op<L>>, b: seq<Op<L>>)
    ensures Leaves(a + b) == Leaves(a) + Leaves(b)
    decreases a
  {
    if |a| == 0 {
      assert a + b == b;
    } else {
      assert (a + b)[0] == a[0];
      assert (a + b)[1..] == a[1..] + b;
      LeavesAppend(a[1..], b);
    }
  }

  /** Headline: when every leaf's inverse is exact, committing the inverse returned
      by applying `op` restores the state `op` was applied to. */
  lemma {:induction false} ApplyOpUndone<S(!new), L(!new)>(f: LeafCommit<S, L>, s: S, op: Op<L>)
    requires ExactInverses(f)
    ensures var (t, inv) := ApplyOp(f, s, op);
            ApplyOp(f, t, inv).0 == s
    decreases op
  {
    match op
    case Leaf(l) =>
    case Sequence(ops) =>
      CommitUndone(f, s, ops);
  }

  /** Headline: when every leaf's inverse is exact, committing the rewind sequence
      returned by a commit restores the graph to its state before that commit. */
  lemma {:induction false} CommitUndone<S(!new), L(!new)>(f: LeafCommit<S, L>, s: S, ops: seq<Op<L>>)
    requires ExactInverses(f)
    ensures var (t, rewind) := Commit(f, s, ops);
            Commit(f, t, rewind).0 == s
    decreases ops
  {
    if |ops| > 0 {
      var (s1, inv) := ApplyOp(f, s, ops[0]);
      var (s2, rest) := Commit(f, s1, ops[1..]);
      ApplyOpUndone(f, s, ops[0]);
      CommitUndone(f, s1, ops[1..]);
      CommitSnoc(f, s2, rest, inv);
    }
  }
}
