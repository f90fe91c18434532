/** The Ring type of hash/ring.go: one list of buckets, appended to, sorted and compacted in place. */
module Ring {
  import opened Bytes
  import opened RingSpec

  const DEFAULT_BUCKETS_PER_NODE := 100

  /** A SHA-512 digest. */
  type Digest = d: seq<byte> | |d| == 64 witness Zeros(64)

  // ----- the buckets of a node -----

  /** Big-endian word j / 4 of a digest; j is a byte offset. */
  function WordId(d: Digest, j: nat): u32
    requires j + 3 < 64
  {
    BigEndian(d[j..j + 4])
  }

  /** The buckets that one digest gives when the loop stops at byte m. */
  function WordsFrom(d: Digest, j: nat, m: nat, node: Node): seq<Bucket>
    requires j % 4 == 0 && m <= 64
    decreases m - j
  {
    if j >= m then [] else [Bucket(WordId(d, j), node)] + WordsFrom(d, j + 4, m, node)
  }

  /** The buckets still to come when `content` has been written to the hash so far. */
  function DerivedFrom(digest: seq<byte> -> Digest, content: seq<byte>, node: Node, remaining: int): seq<Bucket>
    decreases remaining
  {
    if remaining <= 0 then []
    else
      var m := if remaining > 64 then 64 else remaining;
      var words := WordsFrom(digest(content + node), 0, m, node);
      WordsCount(digest(content + node), 0, m, node);
      words + DerivedFrom(digest, content + node, node, remaining - |words|)
  }

  /** All the buckets of a node. */
  function Derived(digest: seq<byte> -> Digest, node: Node, numberOfBuckets: int): seq<Bucket> {
    DerivedFrom(digest, [], node, numberOfBuckets)
  }

  /** Four bytes a bucket: a round never makes more buckets than the byte bound m. */
  lemma {:induction false} WordsCount(d: Digest, j: nat, m: nat, node: Node)
    requires j % 4 == 0 && j <= m + 3 && m <= 64
    ensures |WordsFrom(d, j, m, node)| == (m - j + 3) / 4
    ensures AllOwnedBy(WordsFrom(d, j, m, node), node)
    decreases m + 4 - j
  {
    if j < m {
      WordsCount(d, j + 4, m, node);
    }
  }

  /** Bucket k of a round has as id the big-endian word of bytes 4k to 4k+3 of the digest. */
  lemma {:induction false} WordsAt(d: Digest, j: nat, m: nat, node: Node, k: nat)
    requires j % 4 == 0 && m <= 64 && j + 4 * k < m
    ensures k < |WordsFrom(d, j, m, node)| && j + 4 * k + 4 <= 64
    ensures WordsFrom(d, j, m, node)[k] == Bucket(BigEndian(d[j + 4 * k..j + 4 * k + 4]), node)
    decreases k
  {
    hide BigEndian;
    if k > 0 {
      WordsAt(d, j + 4, m, node, k - 1);
    }
  }

  /** Although the inner bound counts bytes and the outer one buckets, exactly the number asked for is made. */
  lemma {:induction false} DerivedCount(digest: seq<byte> -> Digest, content: seq<byte>, node: Node, remaining: int)
    ensures |DerivedFrom(digest, content, node, remaining)| == if remaining < 0 then 0 else remaining
    ensures AllOwnedBy(DerivedFrom(digest, content, node, remaining), node)
    decreases remaining
  {
    if remaining > 0 {
      var m := if remaining > 64 then 64 else remaining;
      WordsCount(digest(content + node), 0, m, node);
      DerivedCount(digest, content + node, node, remaining - |WordsFrom(digest(content + node), 0, m, node)|);
    }
  }

  // ----- which bucket has which id -----

  /** What the hash has been given after r rounds: the node's name r times. */
  function Repeated(node: Node, r: nat): seq<byte> {
    if r == 0 then [] else Repeated(node, r - 1) + node
  }

  /** The number of buckets before round r, of n in all. */
  function RoundStart(n: nat, r: nat): (start: nat)
    ensures start <= n
  {
    if r == 0 then 0
    else
      var before := RoundStart(n, r - 1);
      before + ((if n - before > 64 then 64 else n - before) + 3) / 4
  }

  lemma {:induction false} DerivedFromAt(digest: seq<byte> -> Digest, node: Node, n: nat, from: nat, r: nat, k: nat)
    requires from <= r && RoundStart(n, r) + 4 * k < n && k < 16
    ensures RoundStart(n, from) <= RoundStart(n, r)
    ensures var at, all := RoundStart(n, r) - RoundStart(n, from) + k,
                           DerivedFrom(digest, Repeated(node, from), node, n - RoundStart(n, from));
            && at < |all| && |digest(Repeated(node, r + 1))| == 64
            && all[at] == Bucket(BigEndian(digest(Repeated(node, r + 1))[4 * k..4 * k + 4]), node)
    decreases r - from
  {
    hide WordsFrom, BigEndian, RoundStart, DerivedFrom, Repeated;
    StartsGrow(n, from, r);
    DerivedRound(digest, node, n, from);
    var start := RoundStart(n, from);
    var m := if n - start > 64 then 64 else n - start;
    var d := digest(Repeated(node, from + 1));
    if from == r {
      WordsAt(d, 0, m, node, k);
    } else {
      DerivedFromAt(digest, node, n, from + 1, r, k);
    }
  }

  /** Round r makes its words, and the rest is left for the rounds after it. */
  lemma DerivedRound(digest: seq<byte> -> Digest, node: Node, n: nat, r: nat)
    requires RoundStart(n, r) < n
    ensures var left := n - RoundStart(n, r);
            var words := WordsFrom(digest(Repeated(node, r + 1)), 0, if left > 64 then 64 else left, node);
            && RoundStart(n, r + 1) == RoundStart(n, r) + |words|
            && DerivedFrom(digest, Repeated(node, r), node, left) ==
               words + DerivedFrom(digest, Repeated(node, r + 1), node, n - RoundStart(n, r + 1))
  {
    hide WordsFrom;
    var left := n - RoundStart(n, r);
    WordsCount(digest(Repeated(node, r + 1)), 0, if left > 64 then 64 else left, node);
  }

  lemma {:induction false} StartsGrow(n: nat, from: nat, r: nat)
    requires from <= r
    ensures RoundStart(n, from) <= RoundStart(n, r)
  {
    if from < r { StartsGrow(n, from, r - 1); }
  }

  /** Bucket k of round r has as id the word at bytes 4k to 4k+3, most significant first, of the digest of
      the node's name written r + 1 times. */
  lemma DerivedAt(digest: seq<byte> -> Digest, node: Node, n: nat, r: nat, k: nat)
    requires RoundStart(n, r) + 4 * k < n && k < 16
    ensures var d := digest(Repeated(node, r + 1));
            && RoundStart(n, r) + k < |Derived(digest, node, n)| && |d| == 64
            && Derived(digest, node, n)[RoundStart(n, r) + k] ==
               Bucket(d[4 * k] as int * 16777216 + d[4 * k + 1] as int * 65536 + d[4 * k + 2] as int * 256 + d[4 * k + 3] as int, node)
  {
    hide DerivedFrom;
    DerivedFromAt(digest, node, n, 0, r, k);
  }

  /** Every bucket is one of those. */
  lemma RoundOf(n: nat, b: nat) returns (r: nat, k: nat)
    requires b < n
    ensures RoundStart(n, r) + k == b && RoundStart(n, r) + 4 * k < n && k < 16
  {
    r := 0;
    while RoundStart(n, r + 1) <= b
      invariant RoundStart(n, r) <= b
      decreases n - RoundStart(n, r)
    {
      r := r + 1;
    }
    k := b - RoundStart(n, r);
  }

  // ----- sorting -----

  /** Stands for sort.Sort, which is not stable: callers learn only that the result is a sorted arrangement. */
  method Sort(b: seq<Bucket>) returns (r: seq<Bucket>)
    ensures Sorted(r) && multiset(r) == multiset(b)
  {
    r := [];
    for i := 0 to |b|
      invariant Sorted(r) && multiset(r) == multiset(b[..i])
    {
      InsertSorts(r, b[i]);
      InsertElements(r, b[i]);
      assert b[..i + 1] == b[..i] + [b[i]];
      r := Insert(r, b[i]);
    }
    assert b[..|b|] == b;
  }

  // ----- the ring -----

  class Ring {
    var buckets: seq<Bucket>
    /** crc32.Update(0, crcTable, key) */
    const checksum: seq<byte> -> u32
    const digest: seq<byte> -> Digest

    ghost predicate Valid()
      reads this
    {
      Sorted(buckets)
    }

    /** NewRing: a node named twice gets its buckets twice. */
    constructor (checksum: seq<byte> -> u32, digest: seq<byte> -> Digest, nodes: seq<Node>)
      ensures Valid() && this.checksum == checksum && this.digest == digest
      ensures multiset(buckets) == multiset(DerivedAll(digest, nodes))
    {
      hide Derived, DerivedAll;
      this.checksum, this.digest := checksum, digest;
      buckets := [];
      DerivedAllNone(digest);
      new;
      for k := 0 to |nodes|
        invariant buckets == DerivedAll(digest, nodes[..k]) && this.digest == digest && this.checksum == checksum
      {
        AddBuckets(nodes[k], DEFAULT_BUCKETS_PER_NODE, false);
        DerivedAllNext(digest, nodes, k);
      }
      assert nodes[..|nodes|] == nodes;
      buckets := Sort(buckets);
    }

    /** The inner loop at hash/ring.go:52-61. */
    method AppendWords(d: Digest, m: nat, node: Node)
      requires m <= 64
      modifies this
      ensures buckets == old(buckets) + WordsFrom(d, 0, m, node)
    {
      ghost var all := WordsFrom(d, 0, m, node);
      var j := 0;
      while j < m
        invariant j % 4 == 0 && j <= m + 3
        invariant buckets + WordsFrom(d, j, m, node) == old(buckets) + all
      {
        ghost var b := Bucket(WordId(d, j), node);
        assert buckets + ([b] + WordsFrom(d, j + 4, m, node)) == (buckets + [b]) + WordsFrom(d, j + 4, m, node);
        buckets := buckets + [Bucket(WordId(d, j), node)];
        j := j + 4;
      }
    }

    /** hash/ring.go:38-66 */
    method AddBuckets(node: Node, numberOfBuckets: int, refresh: bool)
      modifies this
      ensures refresh ==> Valid() && AddedTo(old(buckets), buckets, node, Derived(digest, node, numberOfBuckets))
      ensures !refresh ==> buckets == old(buckets) + Derived(digest, node, numberOfBuckets)
    {
      hide WordsFrom, Filter;
      if refresh {
        RemoveBuckets(node);
      }
      ghost var base, all := buckets, Derived(digest, node, numberOfBuckets);
      var i, content := 0, [];
      while i < numberOfBuckets
        invariant buckets + DerivedFrom(digest, content, node, numberOfBuckets - i) == base + all
        decreases numberOfBuckets - i
      {
        content := content + node;
        var d := digest(content);
        var m := numberOfBuckets - i;
        if m > 64 {
          m := 64;
        }
        ghost var words := WordsFrom(d, 0, m, node);
        WordsCount(d, 0, m, node);
        ghost var rest := DerivedFrom(digest, content, node, numberOfBuckets - i - |words|);
        assert buckets + (words + rest) == (buckets + words) + rest;
        var length := |buckets|;
        AppendWords(d, m, node);
        i := i + |buckets| - length;
      }
      assert buckets + [] == buckets;
      if refresh {
        buckets := Sort(buckets);
      }
    }

    method Add(node: Node)
      modifies this
      ensures Valid() && AddedTo(old(buckets), buckets, node, Derived(digest, node, 100))
    {
      AddBuckets(node, DEFAULT_BUCKETS_PER_NODE, true);
    }

    method AddWithOpts(node: Node, numberOfBuckets: int)
      modifies this
      ensures Valid() && AddedTo(old(buckets), buckets, node, Derived(digest, node, numberOfBuckets))
    {
      AddBuckets(node, numberOfBuckets, true);
    }

    /** hash/ring.go:142-161: closing the gap element by element is an order-preserving filter. */
    method RemoveBuckets(node: Node)
      modifies this
      ensures buckets == Drop(old(buckets), node)
    {
      var i := 0;
      while true
        invariant 0 <= i <= |buckets|
        invariant buckets[..i] + Drop(buckets[i..], node) == Drop(old(buckets), node)
        decreases |buckets| - i
      {
        var n := |buckets| - 1;
        if i > n {
          assert buckets[..i] + [] == buckets && buckets[i..] == [];
          break;
        }
        var cur := buckets[i];
        assert buckets[i..][0] == cur && buckets[i..][1..] == buckets[i + 1..];
        if cur.node != node {
          assert buckets[..i + 1] == buckets[..i] + [cur];
          i := i + 1;
          continue;
        }
        if i == n {
          FilterAll([cur], node, true);
          assert buckets[i..] == [cur] && buckets[..i] + [] == buckets[..i];
          buckets := buckets[..i];
          break;
        } else {
          ghost var b0 := buckets;
          buckets := buckets[..i] + buckets[i + 1..];
          assert buckets[..i] == b0[..i] && buckets[i..] == b0[i + 1..];
        }
      }
    }

    method Remove(node: Node)
      requires Valid()
      modifies this
      ensures Valid() && buckets == Drop(old(buckets), node)
    {
      FilterSorted(buckets, node, false);
      RemoveBuckets(node);
    }

    /** The binary search at hash/ring.go:83-94 and 108-119, wrapped to the first bucket. */
    method Search(c: u32) returns (i: nat)
      requires Valid() && buckets != []
      ensures i == StartIndex(buckets, c)
    {
      hide LowerBound;
      var n := |buckets|;
      var j := n;
      i := 0;
      while i < j
        invariant 0 <= i <= j <= n
        invariant forall k :: 0 <= k < i ==> buckets[k].id < c
        invariant forall k :: j <= k < n ==> buckets[k].id >= c
      {
        var p := i + (j - i) / 2;
        if buckets[p].id < c {
          i := p + 1;
        } else {
          j := p;
        }
      }
      LowerBoundUnique(buckets[..i], buckets[i..], c);
      assert buckets == buckets[..i] + buckets[i..];
      if i == n {
        i := 0;
      }
    }

    method Find(key: seq<byte>) returns (node: Node, ok: bool)
      requires Valid()
      ensures Found(buckets, checksum(key), 1) == if ok then Some([node]) else None
    {
      var c, n := checksum(key), |buckets|;
      if n == 0 {
        return [], false;
      }
      var i := Search(c);
      OwnersStart(buckets, c);
      assert Take(Owners(buckets, c), 1) == [buckets[i].node];
      return buckets[i].node, true;
    }

    /** The loop over found at hash/ring.go:132-136. */
    method IsIn(next: Node, found: seq<Node>) returns (seen: bool)
      ensures seen <==> next in found
    {
      for k := 0 to |found|
        invariant next !in found[..k]
      {
        if found[k] == next {
          return true;
        }
      }
      assert found[..|found|] == found;
      seen := false;
    }

    method FindMultiple(key: seq<byte>, count: int) returns (found: seq<Node>, ok: bool)
      requires Valid()
      ensures Found(buckets, checksum(key), count) == if ok then Some(found) else None
    {
      hide Clockwise, Nodes, LowerBound, Owners, Take, Distinct;
      if count <= 0 {
        return [], false;
      }
      var c, n := checksum(key), |buckets|;
      if n == 0 {
        return [], false;
      }
      var i := Search(c);
      var first := i;
      ghost var walk := Nodes(Clockwise(buckets, c));
      ghost var steps := 0;
      found := [buckets[i].node];
      WalkAt(buckets, c, 0);
      assert walk[..1] == [walk[0]];
      DistinctOne(walk[0]);
      while count > |found|
        invariant 0 <= steps < n && i == if first + steps < n then first + steps else first + steps - n
        invariant found == Distinct(walk[..steps + 1]) && 0 < |found| <= count
        decreases n - steps
      {
        i := i + 1;
        if i == n {
          i := 0;
        }
        steps := steps + 1;
        if i == first {
          break;
        }
        var next := buckets[i].node;
        WalkAt(buckets, c, steps);
        DistinctNext(walk, steps);
        var seen := IsIn(next, found);
        if seen {
          continue;
        }
        found := found + [next];
      }
      ok := true;
      WalkDone(buckets, c, if steps < n then steps + 1 else n, found, count);
    }
  }

  /** The buckets of all the nodes, as often as each is named. */
  function DerivedAll(digest: seq<byte> -> Digest, nodes: seq<Node>): seq<Bucket> {
    if nodes == [] then []
    else DerivedAll(digest, nodes[..|nodes| - 1]) + Derived(digest, nodes[|nodes| - 1], 100)
  }

  lemma DerivedAllNone(digest: seq<byte> -> Digest)
    ensures DerivedAll(digest, []) == []
  {
  }

  lemma DerivedAllNext(digest: seq<byte> -> Digest, nodes: seq<Node>, k: nat)
    requires k < |nodes|
    ensures DerivedAll(digest, nodes[..k + 1]) ==
            DerivedAll(digest, nodes[..k]) + Derived(digest, nodes[k], 100)
  {
    assert nodes[..k + 1][..k] == nodes[..k];
  }

  /** Where the clockwise walk begins: past the last bucket comes the first. */
  function StartIndex(b: seq<Bucket>, c: u32): (i: nat)
    requires b != []
    ensures i < |b|
  {
    if LowerBound(b, c) == |b| then 0 else LowerBound(b, c)
  }

  lemma WalkAt(b: seq<Bucket>, c: u32, k: nat)
    requires k < |b|
    ensures |Nodes(Clockwise(b, c))| == |b|
    ensures var i := StartIndex(b, c) + k; Nodes(Clockwise(b, c))[k] == b[if i < |b| then i else i - |b|].node
  {
    hide LowerBound;
  }

  lemma DistinctNext(walk: seq<Node>, k: nat)
    requires k < |walk|
    ensures var d := Distinct(walk[..k]); Distinct(walk[..k + 1]) == if walk[k] in d then d else d + [walk[k]]
  {
    assert walk[..k + 1][..k] == walk[..k];
  }

  /** The walk may stop after k steps: with enough nodes, or back at the start. */
  lemma WalkDone(b: seq<Bucket>, c: u32, k: nat, found: seq<Node>, count: nat)
    requires k <= |Nodes(Clockwise(b, c))| && found == Distinct(Nodes(Clockwise(b, c))[..k]) && |found| <= count
    requires k == |Nodes(Clockwise(b, c))| || |found| == count
    ensures Take(Owners(b, c), count) == found
  {
    hide Clockwise, Nodes, Distinct;
    var walk := Nodes(Clockwise(b, c));
    DistinctPrefix(walk, k);
    assert walk[..|walk|] == walk;
  }

  lemma OwnersStart(b: seq<Bucket>, c: u32)
    requires b != []
    ensures Owners(b, c) != [] && Owners(b, c)[0] == b[StartIndex(b, c)].node
  {
    hide LowerBound, Distinct;
    var s := Nodes(Clockwise(b, c));
    WalkAt(b, c, 0);
    assert s[..1] == [s[0]];
    DistinctOne(s[0]);
    DistinctPrefix(s, 1);
  }
}
