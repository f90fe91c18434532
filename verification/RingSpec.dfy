/**
  The consistent-hash ring (hash/ring.go) as a function of its bucket list: who owns a hash value,
  and what adding and removing a node does to all the owners.
 */
module RingSpec {
  import opened Bytes

  /** A Go string is a sequence of bytes. */
  type Node = seq<byte>

  datatype Bucket = Bucket(id: u32, node: Node)

  predicate Sorted(b: seq<Bucket>) {
    forall i, j :: 0 <= i < j < |b| ==> b[i].id <= b[j].id
  }

  /** The buckets of x (own) or of every other node (!own), in order. */
  function Filter(b: seq<Bucket>, x: Node, own: bool): seq<Bucket> {
    if b == [] then []
    else (if (b[0].node == x) == own then [b[0]] else []) + Filter(b[1..], x, own)
  }

  function Drop(b: seq<Bucket>, x: Node): seq<Bucket> {
    Filter(b, x, false)
  }

  function Nodes(b: seq<Bucket>): seq<Node> {
    seq(|b|, i requires 0 <= i < |b| => b[i].node)
  }

  /** The index of the first bucket with id >= c, or |b|. */
  function LowerBound(b: seq<Bucket>, c: u32): (p: nat)
    ensures p <= |b|
  {
    if b == [] || b[0].id >= c then 0 else 1 + LowerBound(b[1..], c)
  }

  /** All buckets in the order in which the walk from hash value c meets them. */
  function Clockwise(b: seq<Bucket>, c: u32): seq<Bucket> {
    b[LowerBound(b, c)..] + b[..LowerBound(b, c)]
  }

  /** Each node once, in the order of first occurrence. */
  function Distinct(s: seq<Node>): seq<Node> {
    if s == [] then []
    else
      var d := Distinct(s[..|s| - 1]);
      if s[|s| - 1] in d then d else d + [s[|s| - 1]]
  }

  function Without(s: seq<Node>, x: Node): seq<Node> {
    if s == [] then []
    else (if s[0] == x then [] else [s[0]]) + Without(s[1..], x)
  }

  function Take<T>(s: seq<T>, n: nat): seq<T> {
    if n < |s| then s[..n] else s
  }

  /** The distinct nodes met clockwise from c. */
  function Owners(b: seq<Bucket>, c: u32): seq<Node> {
    Distinct(Nodes(Clockwise(b, c)))
  }

  /** FindMultiple for a key with hash value c; None is the ok = false result. */
  function Found(b: seq<Bucket>, c: u32, count: int): Option<seq<Node>> {
    if count <= 0 || b == [] then None else Some(Take(Owners(b, c), count))
  }

  // ----- Distinct is first-occurrence order -----

  function FirstIndex(s: seq<Node>, x: Node): nat
    requires x in s
  {
    if s[0] == x then 0 else 1 + FirstIndex(s[1..], x)
  }

  lemma {:induction false} FirstIndexOfPrefix(s: seq<Node>, k: nat, x: Node)
    requires k <= |s| && x in s[..k]
    ensures FirstIndex(s, x) == FirstIndex(s[..k], x) < k
  {
    if s[0] != x {
      assert s[..k][1..] == s[1..][..k - 1];
      FirstIndexOfPrefix(s[1..], k - 1, x);
    }
  }

  lemma {:induction false} FirstIndexAtEnd(s: seq<Node>, x: Node)
    requires x !in s
    ensures FirstIndex(s + [x], x) == |s|
  {
    if s != [] {
      assert (s + [x])[1..] == s[1..] + [x];
      FirstIndexAtEnd(s[1..], x);
    }
  }

  /** No duplicates, the same nodes, and ordered by where each first occurs: this determines Distinct. */
  lemma {:induction false} DistinctIsFirstOccurrenceOrder(s: seq<Node>)
    ensures var d := Distinct(s);
            && (forall x :: x in d <==> x in s)
            && (forall i, j :: 0 <= i < j < |d| ==> d[i] != d[j])
            && (forall i, j :: 0 <= i < j < |d| ==> FirstIndex(s, d[i]) < FirstIndex(s, d[j]))
  {
    if s != [] {
      var k, y := |s| - 1, s[|s| - 1];
      var e, d := Distinct(s[..k]), Distinct(s);
      DistinctIsFirstOccurrenceOrder(s[..k]);
      assert s == s[..k] + [y];
      forall i | 0 <= i < |e| ensures FirstIndex(s, e[i]) == FirstIndex(s[..k], e[i]) < k {
        assert e[i] in e;
        FirstIndexOfPrefix(s, k, e[i]);
      }
      if y !in e {
        FirstIndexAtEnd(s[..k], y);
      }
    }
  }

  lemma {:induction false} DistinctPrefix(s: seq<Node>, k: nat)
    requires k <= |s|
    ensures Distinct(s[..k]) <= Distinct(s)
    decreases |s|
  {
    if k < |s| {
      DistinctPrefix(s[..|s| - 1], k);
      assert s[..|s| - 1][..k] == s[..k];
    } else {
      assert s[..k] == s;
    }
  }

  // ----- removing -----

  lemma {:induction false} FilterConcat(a: seq<Bucket>, b: seq<Bucket>, x: Node, own: bool)
    ensures Filter(a + b, x, own) == Filter(a, x, own) + Filter(b, x, own)
  {
    if a == [] {
      assert a + b == b;
    } else {
      assert (a + b)[1..] == a[1..] + b;
      FilterConcat(a[1..], b, x, own);
    }
  }

  lemma {:induction false} FilterElements(b: seq<Bucket>, x: Node, own: bool)
    ensures forall e :: e in Filter(b, x, own) <==> e in b && (e.node == x) == own
    ensures multiset(Filter(b, x, own)) <= multiset(b)
  {
    if b != [] {
      FilterElements(b[1..], x, own);
      assert b == [b[0]] + b[1..];
    }
  }

  lemma {:induction false} FilterSorted(b: seq<Bucket>, x: Node, own: bool)
    requires Sorted(b)
    ensures Sorted(Filter(b, x, own))
  {
    if b != [] {
      FilterSorted(b[1..], x, own);
      FilterElements(b[1..], x, own);
      var f := Filter(b[1..], x, own);
      forall j | 0 <= j < |f| ensures b[0].id <= f[j].id {
        assert f[j] in b[1..];
      }
    }
  }

  lemma {:induction false} LowerBoundUnique(a: seq<Bucket>, r: seq<Bucket>, c: u32)
    requires forall i :: 0 <= i < |a| ==> a[i].id < c
    requires forall i :: 0 <= i < |r| ==> r[i].id >= c
    ensures LowerBound(a + r, c) == |a|
  {
    if a == [] {
      assert a + r == r;
    } else {
      assert (a + r)[1..] == a[1..] + r;
      LowerBoundUnique(a[1..], r, c);
    }
  }

  lemma {:induction false} LowerBoundSplits(b: seq<Bucket>, c: u32)
    requires Sorted(b)
    ensures forall i :: 0 <= i < LowerBound(b, c) ==> b[i].id < c
    ensures forall i :: LowerBound(b, c) <= i < |b| ==> b[i].id >= c
  {
    if b != [] && b[0].id < c {
      LowerBoundSplits(b[1..], c);
    }
  }

  lemma ClockwiseOfDrop(b: seq<Bucket>, x: Node, c: u32)
    requires Sorted(b)
    ensures Clockwise(Drop(b, x), c) == Drop(Clockwise(b, c), x)
  {
    var p := LowerBound(b, c);
    var lo, hi := b[..p], b[p..];
    assert b == lo + hi;
    LowerBoundSplits(b, c);
    FilterConcat(lo, hi, x, false);
    FilterConcat(hi, lo, x, false);
    FilterElements(lo, x, false);
    FilterElements(hi, x, false);
    var lo', hi' := Drop(lo, x), Drop(hi, x);
    forall i | 0 <= i < |lo'| ensures lo'[i].id < c {
      assert lo'[i] in lo;
    }
    forall i | 0 <= i < |hi'| ensures hi'[i].id >= c {
      assert hi'[i] in hi;
    }
    LowerBoundUnique(lo', hi', c);
    assert (lo' + hi')[|lo'|..] + (lo' + hi')[..|lo'|] == hi' + lo';
  }

  lemma {:induction false} NodesOfDrop(b: seq<Bucket>, x: Node)
    ensures Nodes(Drop(b, x)) == Without(Nodes(b), x)
  {
    if b != [] {
      NodesOfDrop(b[1..], x);
      assert Nodes(b)[1..] == Nodes(b[1..]);
      assert Nodes([b[0]] + Drop(b[1..], x)) == [b[0].node] + Nodes(Drop(b[1..], x));
    }
  }

  lemma {:induction false} WithoutConcat(s: seq<Node>, t: seq<Node>, x: Node)
    ensures Without(s + t, x) == Without(s, x) + Without(t, x)
  {
    if s == [] {
      assert s + t == t;
    } else {
      assert (s + t)[1..] == s[1..] + t;
      WithoutConcat(s[1..], t, x);
    }
  }

  lemma WithoutOne(y: Node, x: Node)
    ensures Without([y], x) == if y == x then [] else [y]
  {
    assert [y] == [y] + [];
  }

  lemma {:induction false} WithoutElements(s: seq<Node>, x: Node)
    ensures forall y :: y in Without(s, x) <==> y in s && y != x
    ensures |Without(s, x)| <= |s| && (x !in s ==> Without(s, x) == s)
  {
    if s != [] {
      WithoutElements(s[1..], x);
      assert s == [s[0]] + s[1..];
    }
  }

  lemma {:induction false} DistinctOfWithout(s: seq<Node>, x: Node)
    ensures Distinct(Without(s, x)) == Without(Distinct(s), x)
    decreases |s|
  {
    if s != [] {
      var k, y := |s| - 1, s[|s| - 1];
      var u, d := Without(s[..k], x), Distinct(s[..k]);
      DistinctOfWithout(s[..k], x);
      assert s == s[..k] + [y];
      WithoutConcat(s[..k], [y], x);
      WithoutConcat(d, [y], x);
      WithoutElements(d, x);
      if y == x {
        assert Without([y], x) == [];
        assert u + [] == u;
        assert Without(d, x) + [] == Without(d, x);
      } else {
        assert Without([y], x) == [y] + Without([], x) == [y];
        assert (u + [y])[..|u|] == u;
      }
    }
  }

  /** Removing a node takes it out of every clockwise order and changes nothing else, whatever ids are
      shared and wherever the walk wraps around. */
  lemma OwnersAfterRemove(b: seq<Bucket>, x: Node, c: u32)
    requires Sorted(b)
    ensures Owners(Drop(b, x), c) == Without(Owners(b, c), x)
  {
    ClockwiseOfDrop(b, x, c);
    NodesOfDrop(Clockwise(b, c), x);
    DistinctOfWithout(Nodes(Clockwise(b, c)), x);
  }

  /** Striking x out of a duplicate-free list shortens it by at most one. */
  lemma WithoutSize(a: seq<Node>, x: Node)
    requires forall i, j :: 0 <= i < j < |a| ==> a[i] != a[j]
    ensures |Without(a, x)| >= |a| - 1
  {
    WithoutElements(a, x);
    if x in a {
      var k :| 0 <= k < |a| && a[k] == x;
      var l, r := a[..k], a[k + 1..];
      assert a == l + ([x] + r) && |a| == |l| + 1 + |r|;
      assert x !in l && x !in r;
      WithoutConcat(l, [x] + r, x);
      WithoutConcat([x], r, x);
      WithoutElements(l, x);
      WithoutElements(r, x);
    }
  }

  lemma TakeWithout(s: seq<Node>, x: Node, count: nat)
    requires forall i, j :: 0 <= i < j < |s| ==> s[i] != s[j]
    ensures Take(Without(s, x), count) == Take(Without(Take(s, count + 1), x), count)
  {
    hide Without;
    if count + 1 < |s| {
      var a, r := s[..count + 1], s[count + 1..];
      assert s == a + r;
      WithoutConcat(a, r, x);
      WithoutSize(a, x);
    }
  }

  lemma OwnersElements(b: seq<Bucket>, c: u32)
    ensures forall e :: e in b ==> e.node in Owners(b, c)
    ensures forall x :: x in Owners(b, c) ==> exists i :: 0 <= i < |b| && b[i].node == x
    ensures forall i, j :: 0 <= i < j < |Owners(b, c)| ==> Owners(b, c)[i] != Owners(b, c)[j]
  {
    var w, p := Clockwise(b, c), LowerBound(b, c);
    DistinctIsFirstOccurrenceOrder(Nodes(w));
    forall e | e in b ensures e.node in Nodes(w) {
      var i :| 0 <= i < |b| && b[i] == e;
      var k := if i < p then |b| - p + i else i - p;
      assert w[k] == e && Nodes(w)[k] == e.node;
    }
    forall x | x in Owners(b, c) ensures exists i :: 0 <= i < |b| && b[i].node == x {
      var k :| 0 <= k < |Nodes(w)| && Nodes(w)[k] == x;
      var i := if k < |b| - p then k + p else k - (|b| - p);
      assert b[i] == w[k];
    }
  }

  /** FindMultiple: no node twice, min(count, number of nodes on the ring) of them, beginning with Find's. */
  lemma FoundShape(b: seq<Bucket>, c: u32, count: int)
    requires b != [] && count > 0
    ensures var r, nodes := Found(b, c, count).value, set e | e in b :: e.node;
            && (forall i, j :: 0 <= i < j < |r| ==> r[i] != r[j])
            && (forall x :: x in r ==> x in nodes)
            && |r| == (if count < |nodes| then count else |nodes|)
            && r != [] && Found(b, c, 1) == Some([r[0]])
  {
    hide Owners;
    var o, nodes := Owners(b, c), set e | e in b :: e.node;
    OwnersElements(b, c);
    assert b[0] in b;
    forall x | x in o ensures x in nodes {
      var i :| 0 <= i < |b| && b[i].node == x;
      assert b[i] in b;
    }
    assert nodes == set x | x in o;
    SetSize(o);
    assert Take(o, 1) == [o[0]];
  }

  /** FindMultiple after Remove(x): the first count of what FindMultiple gave for count + 1 with x
      struck out, and not found when nothing is left. */
  lemma RemoveDisturbsNobodyElse(b: seq<Bucket>, x: Node, c: u32, count: int)
    requires Sorted(b)
    ensures Found(Drop(b, x), c, count) ==
            match Found(b, c, count + 1)
            case None => None
            case Some(was) =>
              if count <= 0 || Without(was, x) == [] then None else Some(Take(Without(was, x), count))
  {
    if count > 0 && b != [] {
      var o, d := Owners(b, c), Drop(b, x);
      OwnersAfterRemove(b, x, c);
      OwnersElements(b, c);
      OwnersElements(d, c);
      TakeWithout(o, x, count);
      if d != [] {
        assert d[0] in d;
        assert Without(o, x) != [];
      }
    }
  }

  /** Find after Remove(x): unchanged unless x was the owner, and then the next distinct node clockwise. */
  lemma RemovePassesToNext(b: seq<Bucket>, x: Node, c: u32)
    requires Sorted(b) && b != []
    ensures var o := Owners(b, c);
            Found(Drop(b, x), c, 1) ==
            if o[0] != x then Some([o[0]]) else if |o| > 1 then Some([o[1]]) else None
  {
    var o := Owners(b, c);
    OwnersElements(b, c);
    assert b[0] in b;
    RemoveDisturbsNobodyElse(b, x, c, 1);
    if |o| > 1 {
      assert Take(o, 2) == [o[0], o[1]];
      PairWithout(o[0], o[1], x);
    } else {
      assert o == [o[0]];
      WithoutOne(o[0], x);
    }
  }

  lemma PairWithout(y: Node, z: Node, x: Node)
    requires y != z
    ensures Without([y, z], x) != []
    ensures Take(Without([y, z], x), 1) == if y != x then [y] else [z]
  {
    WithoutConcat([y], [z], x);
    WithoutOne(y, x);
    WithoutOne(z, x);
    assert [y] + [z] == [y, z];
  }

  // ----- adding -----

  /** What Add(x) may leave behind: sort.Sort is not stable, so any sorted arrangement of the other
      nodes' buckets and the new buckets d. */
  ghost predicate AddedTo(b: seq<Bucket>, b': seq<Bucket>, x: Node, d: seq<Bucket>) {
    Sorted(b') && multiset(b') == multiset(Drop(b, x)) + multiset(d)
  }

  ghost predicate AllOwnedBy(d: seq<Bucket>, x: Node) {
    forall i :: 0 <= i < |d| ==> d[i].node == x
  }

  /** No id is shared by two nodes. */
  ghost predicate NoSharedIds(b: seq<Bucket>) {
    forall i, j :: 0 <= i < |b| && 0 <= j < |b| && b[i].id == b[j].id ==> b[i].node == b[j].node
  }

  lemma {:induction false} FilterCount(b: seq<Bucket>, x: Node, own: bool, e: Bucket)
    ensures multiset(Filter(b, x, own))[e] == if (e.node == x) == own then multiset(b)[e] else 0
  {
    if b != [] {
      FilterCount(b[1..], x, own, e);
      assert b == [b[0]] + b[1..];
    }
  }

  lemma FilterOfUnion(b': seq<Bucket>, a: seq<Bucket>, d: seq<Bucket>, x: Node, own: bool)
    requires multiset(b') == multiset(a) + multiset(d)
    ensures multiset(Filter(b', x, own)) == multiset(Filter(a, x, own)) + multiset(Filter(d, x, own))
  {
    hide Filter;
    forall e: Bucket
      ensures multiset(Filter(b', x, own))[e] == (multiset(Filter(a, x, own)) + multiset(Filter(d, x, own)))[e]
    {
      FilterCount(b', x, own, e);
      FilterCount(a, x, own, e);
      FilterCount(d, x, own, e);
    }
  }

  lemma {:induction false} FilterAll(b: seq<Bucket>, x: Node, own: bool)
    requires forall i :: 0 <= i < |b| ==> (b[i].node == x) == own
    ensures Filter(b, x, own) == b && Filter(b, x, !own) == []
  {
    if b != [] {
      FilterAll(b[1..], x, own);
    }
  }

  lemma DropTwice(b: seq<Bucket>, x: Node)
    ensures Drop(Drop(b, x), x) == Drop(b, x)
  {
    FilterElements(b, x, false);
    forall i | 0 <= i < |Drop(b, x)| ensures Drop(b, x)[i].node != x {
      assert Drop(b, x)[i] in Drop(b, x);
    }
    FilterAll(Drop(b, x), x, false);
  }

  lemma AddedKeepsOthers(b: seq<Bucket>, b': seq<Bucket>, x: Node, d: seq<Bucket>)
    requires AddedTo(b, b', x, d) && AllOwnedBy(d, x)
    ensures Sorted(Drop(b', x)) && multiset(Drop(b', x)) == multiset(Drop(b, x))
  {
    FilterSorted(b', x, false);
    FilterOfUnion(b', Drop(b, x), d, x, false);
    DropTwice(b, x);
    FilterAll(d, x, true);
  }

  lemma HeadsAgree(a: seq<Bucket>, b: seq<Bucket>)
    requires Sorted(a) && Sorted(b) && multiset(a) == multiset(b) && NoSharedIds(b) && a != [] && b != []
    ensures a[0] == b[0]
  {
    assert a[0] in multiset(b) && b[0] in multiset(a);
    var i :| 0 <= i < |b| && b[i] == a[0];
    var j :| 0 <= j < |a| && a[j] == b[0];
    assert a[0].id <= a[j].id && b[0].id <= b[i].id;
  }

  lemma {:induction false} SortedArrangementUnique(a: seq<Bucket>, b: seq<Bucket>)
    requires Sorted(a) && Sorted(b) && multiset(a) == multiset(b) && NoSharedIds(b)
    ensures a == b
  {
    assert |a| == |multiset(a)| == |b|;
    if a != [] {
      HeadsAgree(a, b);
      Uncons(a);
      Uncons(b);
      assert multiset(a[1..]) == multiset(a) - multiset{a[0]} == multiset(b[1..]);
      SortedArrangementUnique(a[1..], b[1..]);
    }
  }

  function Insert(b: seq<Bucket>, e: Bucket): seq<Bucket> {
    if b == [] || e.id <= b[0].id then [e] + b else [b[0]] + Insert(b[1..], e)
  }

  function InsertAll(b: seq<Bucket>, d: seq<Bucket>): seq<Bucket> {
    if d == [] then b else Insert(InsertAll(b, d[1..]), d[0])
  }

  lemma Uncons(b: seq<Bucket>)
    requires b != []
    ensures multiset(b) == multiset{b[0]} + multiset(b[1..])
  {
    assert b == [b[0]] + b[1..];
  }

  lemma {:induction false} InsertElements(b: seq<Bucket>, e: Bucket)
    ensures multiset(Insert(b, e)) == multiset{e} + multiset(b)
  {
    Uncons(Insert(b, e));
    if b != [] && b[0].id < e.id {
      InsertElements(b[1..], e);
      Uncons(b);
    }
  }

  lemma {:induction false} DropOfInsert(b: seq<Bucket>, e: Bucket)
    ensures Drop(Insert(b, e), e.node) == Drop(b, e.node)
  {
    if b == [] || e.id <= b[0].id {
      FilterConcat([e], b, e.node, false);
      FilterAll([e], e.node, true);
    } else {
      DropOfInsert(b[1..], e);
    }
  }

  lemma {:induction false} InsertSorts(b: seq<Bucket>, e: Bucket)
    requires Sorted(b)
    ensures Sorted(Insert(b, e))
  {
    if b != [] && b[0].id < e.id {
      var r := Insert(b[1..], e);
      InsertSorts(b[1..], e);
      InsertElements(b[1..], e);
      forall j | 0 <= j < |r| ensures b[0].id <= r[j].id {
        assert r[j] in multiset(r);
        if r[j] != e {
          assert r[j] in multiset(b[1..]);
          assert r[j] in b[1..];
        }
      }
    }
  }

  lemma {:induction false} InsertAllSorts(b: seq<Bucket>, d: seq<Bucket>, x: Node)
    requires Sorted(b) && AllOwnedBy(d, x)
    ensures Sorted(InsertAll(b, d)) && multiset(InsertAll(b, d)) == multiset(b) + multiset(d)
    ensures Drop(InsertAll(b, d), x) == Drop(b, x)
  {
    hide Insert, Filter, Sorted;
    if d != [] {
      var r := InsertAll(b, d[1..]);
      InsertAllSorts(b, d[1..], x);
      InsertSorts(r, d[0]);
      InsertElements(r, d[0]);
      DropOfInsert(r, d[0]);
      Uncons(d);
    }
  }

  /** The order clockwise from every hash value is the old one once x is struck out of both. */
  ghost predicate OthersUndisturbed(b: seq<Bucket>, b': seq<Bucket>, x: Node) {
    forall c: u32 :: Without(Owners(b', c), x) == Without(Owners(b, c), x)
  }

  lemma AddIsQuietWithoutSharedIds(b: seq<Bucket>, b': seq<Bucket>, x: Node, d: seq<Bucket>)
    requires Sorted(b) && AddedTo(b, b', x, d) && AllOwnedBy(d, x) && NoSharedIds(Drop(b, x))
    ensures Drop(b', x) == Drop(b, x) && OthersUndisturbed(b, b', x)
  {
    AddedKeepsOthers(b, b', x, d);
    FilterSorted(b, x, false);
    SortedArrangementUnique(Drop(b', x), Drop(b, x));
    forall c: u32 ensures Without(Owners(b', c), x) == Without(Owners(b, c), x) {
      OwnersAfterRemove(b', x, c);
      OwnersAfterRemove(b, x, c);
    }
  }

  lemma LowerBoundFirst(b: seq<Bucket>, i: nat)
    requires Sorted(b) && i < |b|
    ensures LowerBound(b, b[i].id) <= i && b[LowerBound(b, b[i].id)].id == b[i].id
  {
    LowerBoundSplits(b, b[i].id);
  }

  lemma LowerBoundSameIds(a: seq<Bucket>, b: seq<Bucket>, c: u32)
    requires |a| == |b| && forall i :: 0 <= i < |a| ==> a[i].id == b[i].id
    ensures LowerBound(a, c) == LowerBound(b, c)
  {
  }

  lemma DistinctOne(x: Node)
    ensures Distinct([x]) == [x]
  {
    assert Distinct([x][..0]) == [];
  }

  lemma FirstOwner(b: seq<Bucket>, c: u32)
    requires LowerBound(b, c) < |b|
    ensures Owners(b, c) != [] && Owners(b, c)[0] == b[LowerBound(b, c)].node
  {
    var s := Nodes(Clockwise(b, c));
    assert s[..1] == [s[0]];
    DistinctOne(s[0]);
    DistinctPrefix(s, 1);
  }

  function Swapped(b: seq<Bucket>, p: nat, q: nat): seq<Bucket>
    requires p < |b| && q < |b|
  {
    b[p := b[q]][q := b[p]]
  }

  lemma SwapSameId(b: seq<Bucket>, p: nat, q: nat)
    requires p < |b| && q < |b| && b[p].id == b[q].id
    ensures forall i :: 0 <= i < |b| ==> Swapped(b, p, q)[i].id == b[i].id
    ensures multiset(Swapped(b, p, q)) == multiset(b)
  {
  }

  /** Two nodes that share an id can change places when a third is added. */
  lemma SharedIdIsDisturbed(b: seq<Bucket>, x: Node, d: seq<Bucket>, i: nat, j: nat) returns (b': seq<Bucket>)
    requires Sorted(b) && AllOwnedBy(d, x)
    requires i < |Drop(b, x)| && j < |Drop(b, x)|
    requires Drop(b, x)[i].id == Drop(b, x)[j].id && Drop(b, x)[i].node != Drop(b, x)[j].node
    ensures AddedTo(b, b', x, d) && !OthersUndisturbed(b, b', x)
  {
    hide Filter, Insert, InsertAll, LowerBound, Owners, Without;
    var base := Drop(b, x);
    FilterSorted(b, x, false);
    FilterElements(b, x, false);
    var c := base[i].id;
    var p := LowerBound(base, c);
    LowerBoundFirst(base, i);
    var q := if base[i].node != base[p].node then i else j;
    var f := Swapped(base, p, q);
    SwapSameId(base, p, q);
    InsertAllSorts(f, d, x);
    b' := InsertAll(f, d);
    forall k | 0 <= k < |base| ensures base[k].node != x {
      assert base[k] in base;
    }
    FilterAll(f, x, false);
    OwnersAfterRemove(b', x, c);
    OwnersAfterRemove(b, x, c);
    LowerBoundSameIds(f, base, c);
    FirstOwner(f, c);
    FirstOwner(base, c);
  }

  /** Adding x steals only for x, whatever order sort.Sort gives to equal ids, exactly when the other
      nodes share no id among themselves. */
  lemma AddStealsOnlyForItself(b: seq<Bucket>, x: Node, d: seq<Bucket>)
    requires Sorted(b) && AllOwnedBy(d, x)
    ensures (forall b' :: AddedTo(b, b', x, d) ==> OthersUndisturbed(b, b', x)) <==> NoSharedIds(Drop(b, x))
  {
    var base := Drop(b, x);
    if NoSharedIds(base) {
      forall b' | AddedTo(b, b', x, d) ensures OthersUndisturbed(b, b', x) {
        AddIsQuietWithoutSharedIds(b, b', x, d);
      }
    } else {
      var i, j :| 0 <= i < |base| && 0 <= j < |base| && base[i].id == base[j].id && base[i].node != base[j].node;
      var b' := SharedIdIsDisturbed(b, x, d, i, j);
    }
  }

  /** The owner of a key afterwards is x, or the old owner, or, where x itself was the old owner, the next
      distinct node after it. Nobody owns anything only if x gets no buckets and no other node has any. */
  lemma AddedOwner(b: seq<Bucket>, b': seq<Bucket>, x: Node, d: seq<Bucket>, c: u32)
    requires Sorted(b) && AddedTo(b, b', x, d) && AllOwnedBy(d, x) && NoSharedIds(Drop(b, x))
    ensures var was, now := Owners(b, c), Owners(b', c);
            && Without(now, x) == Without(was, x)
            && (now == [] <==> d == [] && Without(was, x) == [])
            && (now != [] && now[0] != x ==>
                  was != [] && if was[0] == x then |was| > 1 && now[0] == was[1] else now[0] == was[0])
  {
    hide Owners, Filter, NoSharedIds;
    AddIsQuietWithoutSharedIds(b, b', x, d);
    var was, now := Owners(b, c), Owners(b', c);
    OwnersElements(b', c);
    OwnersElements(b, c);
    if now != [] && now[0] != x {
      WithoutFront(now, x);
      WithoutFront(was, x);
    }
    AddedEmpty(b, b', x, d, c);
  }

  /** The first node that is left when x is struck out of a duplicate-free list. */
  lemma WithoutFront(s: seq<Node>, x: Node)
    requires forall i, j :: 0 <= i < j < |s| ==> s[i] != s[j]
    ensures s != [] && s[0] != x ==> Without(s, x) != [] && Without(s, x)[0] == s[0]
    ensures s != [] && s[0] == x && Without(s, x) != [] ==> |s| > 1 && Without(s, x)[0] == s[1]
    ensures s == [] ==> Without(s, x) == []
  {
    hide Without;
    WithoutElements(s, x);
    if |s| > 1 {
      assert s == [s[0]] + ([s[1]] + s[2..]);
      WithoutConcat([s[0]], [s[1]] + s[2..], x);
      WithoutConcat([s[1]], s[2..], x);
      WithoutOne(s[0], x);
      WithoutOne(s[1], x);
    } else if |s| == 1 {
      assert s == [s[0]];
      WithoutOne(s[0], x);
    }
  }

  lemma AddedEmpty(b: seq<Bucket>, b': seq<Bucket>, x: Node, d: seq<Bucket>, c: u32)
    requires Sorted(b) && AddedTo(b, b', x, d)
    ensures Owners(b', c) == [] <==> d == [] && Without(Owners(b, c), x) == []
  {
    hide Owners, Filter, Without;
    OwnersAfterRemove(b, x, c);
    OwnersEmpty(b', c);
    OwnersEmpty(Drop(b, x), c);
    assert |multiset(b')| == |Drop(b, x)| + |d|;
  }

  lemma OwnersEmpty(b: seq<Bucket>, c: u32)
    ensures Owners(b, c) == [] <==> b == []
  {
    OwnersElements(b, c);
    if b != [] {
      assert b[0] in b;
    }
  }

  /** Who owns a hash value, said of the ids: the node of the first bucket whose id is not below it or, when
      all are, of the first bucket. */
  lemma OwnerExactly(b: seq<Bucket>, c: u32, i: nat)
    requires Sorted(b) && i < |b|
    requires (b[i].id >= c && forall j :: 0 <= j < i ==> b[j].id < c) || (i == 0 && forall j :: 0 <= j < |b| ==> b[j].id < c)
    ensures Owners(b, c) != [] && Owners(b, c)[0] == b[i].node
  {
    LowerBoundSplits(b, c);
    var s := Nodes(Clockwise(b, c));
    assert Clockwise(b, c)[0] == b[i];
    assert s[..1] == [s[0]];
    DistinctOne(s[0]);
    DistinctPrefix(s, 1);
  }
}
