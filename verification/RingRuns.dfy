/** Whole runs of Add, AddWithOpts and Remove on one ring: every bucket is accounted for. */
module RingRuns {
  import opened Bytes
  import opened RingSpec
  import opened Ring

  /** Add(node) is AddOp(node, 100). */
  datatype Op = AddOp(node: Node, numberOfBuckets: int) | RemoveOp(node: Node)

  /** What the contracts of AddWithOpts and Remove allow. */
  ghost predicate Steps(digest: seq<byte> -> Digest, b: seq<Bucket>, op: Op, b': seq<Bucket>) {
    match op
    case AddOp(x, count) => AddedTo(b, b', x, Derived(digest, x, count))
    case RemoveOp(x) => b' == Drop(b, x)
  }

  ghost predicate Runs(digest: seq<byte> -> Digest, states: seq<seq<Bucket>>, ops: seq<Op>) {
    |states| == |ops| + 1 && forall k :: 0 <= k < |ops| ==> Steps(digest, states[k], ops[k], states[k + 1])
  }

  /** The buckets x should have: those of the last operation that named it, else those it had at first. */
  function Share(digest: seq<byte> -> Digest, atFirst: seq<Bucket>, ops: seq<Op>, x: Node): multiset<Bucket>
    decreases |ops|
  {
    if ops == [] then multiset(Filter(atFirst, x, true))
    else
      var last := ops[|ops| - 1];
      if last.node != x then Share(digest, atFirst, ops[..|ops| - 1], x)
      else if last.AddOp? then multiset(Derived(digest, x, last.numberOfBuckets))
      else multiset{}
  }

  lemma FilterOther(b: seq<Bucket>, x: Node, y: Node)
    ensures multiset(Filter(Drop(b, y), x, true)) == if x == y then multiset{} else multiset(Filter(b, x, true))
  {
    hide Filter;
    forall e: Bucket
      ensures multiset(Filter(Drop(b, y), x, true))[e] == (if x == y then multiset{} else multiset(Filter(b, x, true)))[e]
    {
      FilterCount(b, y, false, e);
      FilterCount(Drop(b, y), x, true, e);
      FilterCount(b, x, true, e);
    }
  }

  lemma StepConserves(digest: seq<byte> -> Digest, b: seq<Bucket>, op: Op, b': seq<Bucket>, x: Node)
    requires Sorted(b) && Steps(digest, b, op, b')
    ensures Sorted(b')
    ensures multiset(Filter(b', x, true)) ==
            if op.node != x then multiset(Filter(b, x, true))
            else if op.AddOp? then multiset(Derived(digest, x, op.numberOfBuckets))
            else multiset{}
  {
    hide Filter, DerivedFrom;
    FilterOther(b, x, op.node);
    match op
    case AddOp(y, count) =>
      var d := Derived(digest, y, count);
      DerivedCount(digest, [], y, count);
      FilterOfUnion(b', Drop(b, y), d, x, true);
      FilterAll(d, x, x == y);
    case RemoveOp(y) =>
      FilterSorted(b, y, false);
  }

  /** After any run the ring is sorted and holds exactly the buckets that each node's last operation gave it. */
  lemma {:induction false} RunConserves(digest: seq<byte> -> Digest, states: seq<seq<Bucket>>, ops: seq<Op>, x: Node)
    requires Runs(digest, states, ops) && Sorted(states[0])
    ensures Sorted(states[|ops|])
    ensures multiset(Filter(states[|ops|], x, true)) == Share(digest, states[0], ops, x)
    decreases |ops|
  {
    hide Filter, Derived, Steps, Sorted;
    if ops != [] {
      var k := |ops| - 1;
      RunConserves(digest, states[..k + 1], ops[..k], x);
      StepConserves(digest, states[k], ops[k], states[k + 1], x);
    }
  }

  /** The same as one equation: the whole multiset is the union of the shares. */
  lemma RunConservesAll(digest: seq<byte> -> Digest, states: seq<seq<Bucket>>, ops: seq<Op>, e: Bucket)
    requires Runs(digest, states, ops) && Sorted(states[0])
    ensures multiset(states[|ops|])[e] == Share(digest, states[0], ops, e.node)[e]
  {
    RunConserves(digest, states, ops, e.node);
    FilterCount(states[|ops|], e.node, true, e);
  }
}
