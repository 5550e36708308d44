/** The chain history of partitions and the "step_num" updater. Each partition
    keeps a reference to the partition it was derived from; the initial plan has
    none. Because a datatype value cannot contain itself, the parent chain is
    finite and acyclic by construction. */
module History {
  import opened Grid

  datatype Option<T> = None | Some(value: T)

  datatype Partition = Partition(assignment: Assignment, parent: Option<Partition>)

  /** The partitions reached by following parent links: the parent first, the root last */
  function Ancestors(p: Partition): (chain: seq<Partition>)
    ensures p.parent.None? <==> chain == []
    decreases p
  {
    match p.parent
    case None => []
    case Some(q) => [q] + Ancestors(q)
  }

  /** "step_num": 0 for a partition without a parent, otherwise the parent's step_num plus one.
      It is the number of partitions that precede p in its chain. */
  function StepNum(p: Partition): (r: nat)
    ensures r == |Ancestors(p)|
    ensures r == 0 <==> p.parent.None?
    decreases p
  {
    match p.parent
    case None => 0
    case Some(q) => StepNum(q) + 1
  }

  /** The partition derived from p with a new assignment (what a chain step produces) */
  function Child(p: Partition, assignment: Assignment): (c: Partition)
    ensures c.parent == Some(p) && c.assignment == assignment
  {
    Partition(assignment, Some(p))
  }

  /** The partition reached from p after one derivation per assignment of steps, in order */
  function Descend(p: Partition, steps: seq<Assignment>): Partition
    decreases |steps|
  {
    if steps == [] then p else Descend(Child(p, steps[0]), steps[1..])
  }

  /** The i-th ancestor of p is i + 1 steps behind it, and the last one is the root */
  lemma {:induction false} StepNumAlongChain(p: Partition, i: nat)
    requires i < |Ancestors(p)|
    ensures StepNum(Ancestors(p)[i]) == StepNum(p) - 1 - i
    ensures i == |Ancestors(p)| - 1 ==> Ancestors(p)[i].parent.None?
    decreases p
  {
    var q := p.parent.value;
    if i > 0 {
      StepNumAlongChain(q, i - 1);
    }
  }

  /** Every derivation adds exactly one to step_num */
  lemma {:induction false} StepNumDescend(p: Partition, steps: seq<Assignment>)
    ensures StepNum(Descend(p, steps)) == StepNum(p) + |steps|
    ensures Descend(p, steps).assignment == if steps == [] then p.assignment else steps[|steps| - 1]
    decreases |steps|
  {
    if steps != [] {
      StepNumDescend(Child(p, steps[0]), steps[1..]);
    }
  }

  /** A chain started from a plan with no parent and advanced by the given steps ends at step_num
      equal to the number of steps, and its history lists the earlier assignments newest first */
  lemma {:induction false} ChainHistory(initial: Assignment, steps: seq<Assignment>)
    ensures StepNum(Descend(Partition(initial, None), steps)) == |steps|
    ensures forall i :: 0 <= i < |steps| ==>
      Ancestors(Descend(Partition(initial, None), steps))[i].assignment
        == if i == |steps| - 1 then initial else steps[|steps| - 2 - i]
    decreases |steps|
  {
    var root := Partition(initial, None);
    StepNumDescend(root, steps);
    if steps != [] {
      var last := |steps| - 1;
      DescendSnoc(root, steps[..last], steps[last]);
      assert steps[..last] + [steps[last]] == steps;
      ChainHistory(initial, steps[..last]);
      StepNumDescend(root, steps[..last]);
    }
  }

  lemma {:induction false} DescendSnoc(p: Partition, steps: seq<Assignment>, a: Assignment)
    ensures Descend(p, steps + [a]) == Child(Descend(p, steps), a)
    decreases |steps|
  {
    if steps == [] {
      assert Descend(Child(p, a), []) == Child(p, a);
    } else {
      assert (steps + [a])[1..] == steps[1..] + [a];
      DescendSnoc(Child(p, steps[0]), steps[1..], a);
    }
  }
}
