/** The chained hash table of structure/dict.go, refining a map. */
module Dict {
  import opened Bytes

  const DICT_SIZE := 4096

  type Key = seq<byte>

  class DictNode<V> {
    const k: Key
    var v: V
    var next: DictNode?<V>

    constructor (k: Key, v: V)
      ensures this.k == k && this.v == v && next == null
    {
      this.k, this.v, this.next := k, v, null;
    }
  }

  /** The keys of a chain; they never change. */
  ghost function ChainKeys<V>(chain: seq<DictNode<V>>): (ks: seq<Key>)
    ensures |ks| == |chain|
    ensures forall i :: 0 <= i < |ks| ==> ks[i] == chain[i].k
  {
    seq(|chain|, i requires 0 <= i < |chain| => chain[i].k)
  }

  /** Element i of the chain, or nil past its end. */
  ghost function NodeAt<V>(c: seq<DictNode<V>>, i: nat): DictNode?<V> {
    if i < |c| then c[i] else null
  }

  ghost predicate Links<V>(c: seq<DictNode<V>>, nodes: set<DictNode<V>>)
    reads nodes
  {
    forall i :: 0 <= i < |c| ==> c[i] in nodes && c[i].next == NodeAt(c, i + 1)
  }

  class Dict<V> {
    const data: array<DictNode?<V>>
    /** siphash.Hash under the two random words of NewDict */
    const hash: Key -> nat
    var size: int

    /** The nodes of every bucket, in chain order, and all nodes together. */
    ghost var chains: seq<seq<DictNode<V>>>
    ghost var nodes: set<DictNode<V>>
    /** The map that the table stands for. */
    ghost var model: map<Key, V>

    function Slot(key: Key): (p: nat)
      ensures p < DICT_SIZE
    {
      hash(key) % DICT_SIZE
    }

    /** Bucket p leads through the nodes of its chain and nowhere else; only keys of slot p are there, each once. */
    ghost predicate ChainValid(p: nat)
      requires p < |chains| && p < data.Length
      reads this, data, nodes
    {
      && data[p] == NodeAt(chains[p], 0)
      && Links(chains[p], nodes)
      && SlotKeys(chains[p], p)
    }

    ghost predicate SlotKeys(c: seq<DictNode<V>>, p: nat) {
      && (forall i :: 0 <= i < |c| ==> Slot(c[i].k) == p)
      && (forall i, j :: 0 <= i < j < |c| ==> c[i].k != c[j].k)
    }

    ghost predicate Valid()
      reads this, data, nodes
    {
      && |chains| == data.Length == DICT_SIZE
      && (forall p :: 0 <= p < DICT_SIZE ==> ChainValid(p))
      && Represents()
    }

    /** The map is what the nodes say, and every key of it is in its chain. */
    ghost predicate Represents()
      requires |chains| == DICT_SIZE
      reads this, nodes
    {
      && (forall n :: n in nodes ==> n in chains[Slot(n.k)] && n.k in model && model[n.k] == n.v)
      && (forall k :: k in model ==> k in ChainKeys(chains[Slot(k)]))
      && size == |model|
    }

    constructor (hash: Key -> nat)
      ensures Valid() && model == map[] && nodes == {} && fresh(data) && this.hash == hash
    {
      this.hash := hash;
      data := new DictNode?<V>[DICT_SIZE](_ => null);
      size := 0;
      chains := seq(DICT_SIZE, _ => []);
      nodes := {};
      model := map[];
    }

    method Size() returns (n: int)
      requires Valid()
      ensures n == |model|
    {
      n := size;
    }

    /** A chain without the key, or a node with it, decides the map. */
    lemma NotInChain(key: Key)
      requires Valid() && forall i :: 0 <= i < |chains[Slot(key)]| ==> chains[Slot(key)][i].k != key
      ensures key !in model
    {
    }

    lemma InChain(key: Key, i: nat)
      requires Valid() && i < |chains[Slot(key)]| && chains[Slot(key)][i].k == key
      ensures chains[Slot(key)][i] in nodes && key in model && model[key] == chains[Slot(key)][i].v
    {
      assert ChainValid(Slot(key));
    }

    lemma ChainOf(p: nat)
      requires Valid() && p < DICT_SIZE
      ensures |chains| == data.Length == DICT_SIZE && data[p] == NodeAt(chains[p], 0) && Links(chains[p], nodes)
    {
      assert ChainValid(p);
    }

    method Get(key: Key) returns (r: Option<V>)
      requires Valid()
      ensures r == if key in model then Some(model[key]) else None
    {
      hide Valid, Slot;
      var p := Slot(key);
      ChainOf(p);
      ghost var c := chains[p];
      var node := data[p];
      if node == null {
        NotInChain(key);
        return None;
      }
      ghost var i := 0;
      while true
        invariant 0 <= i < |c| && node == c[i]
        invariant forall j :: 0 <= j < i ==> c[j].k != key
        decreases |c| - i
      {
        assert c[i] in nodes && c[i].next == NodeAt(c, i + 1);
        if node.k != key {
          node := node.next;
          if node == null {
            NotInChain(key);
            return None;
          }
          i := i + 1;
          continue;
        }
        InChain(key, i);
        return Some(node.v);
      }
    }

    /** Two nodes with the same key are the same node. */
    lemma KeysIdentify(n: DictNode<V>, m: DictNode<V>)
      requires |chains| == data.Length == DICT_SIZE && forall p :: 0 <= p < DICT_SIZE ==> ChainValid(p)
      requires n in chains[Slot(n.k)] && m in chains[Slot(m.k)] && n.k == m.k
      ensures n == m
    {
      var c := chains[Slot(n.k)];
      assert ChainValid(Slot(n.k));
      var i :| 0 <= i < |c| && c[i] == n;
      var j :| 0 <= j < |c| && c[j] == m;
    }

    /** node.v = value */
    method Update(node: DictNode<V>, value: V)
      requires Valid() && node in nodes
      modifies this, nodes
      ensures Valid() && chains == old(chains) && nodes == old(nodes)
      ensures model == old(model)[node.k := value]
    {
      node.v := value;
      model := model[node.k := value];
      forall p | 0 <= p < DICT_SIZE ensures ChainValid(p) {
        assert old(ChainValid(p));
      }
      forall n | n in nodes ensures n in chains[Slot(n.k)] && n.k in model && model[n.k] == n.v {
        if n.k == node.k { KeysIdentify(n, node); }
      }
    }

    /** Adding a node behind the last one of a chain leaves every other link alone. */
    lemma LinksStay(c: seq<DictNode<V>>, before: map<DictNode<V>, DictNode?<V>>, node: DictNode<V>, n: DictNode<V>)
      requires forall i :: 0 <= i < |c| ==> c[i] in before && before[c[i]] == NodeAt(c, i + 1)
      requires forall m :: m in before && m != node ==> m.next == before[m]
      requires node !in c
      ensures Links(c, before.Keys + {n})
    {
      forall i | 0 <= i < |c| ensures c[i] in before.Keys + {n} && c[i].next == NodeAt(c, i + 1) {
        assert c[i] in before && before[c[i]] == NodeAt(c, i + 1);
      }
    }

    lemma LinksGrow(c: seq<DictNode<V>>, before: map<DictNode<V>, DictNode?<V>>, node: DictNode<V>, n: DictNode<V>)
      requires forall i :: 0 <= i < |c| ==> c[i] in before && before[c[i]] == NodeAt(c, i + 1)
      requires forall m :: m in before && m != node ==> m.next == before[m]
      requires c != [] && node == c[|c| - 1] && node.next == n && n.next == null
      requires forall i, j :: 0 <= i < j < |c| ==> c[i] != c[j]
      ensures Links(c + [n], before.Keys + {n})
    {
      var d := c + [n];
      forall i | 0 <= i < |d| ensures d[i] in before.Keys + {n} && d[i].next == NodeAt(d, i + 1) {
        if i < |c| {
          assert c[i] in before && before[c[i]] == NodeAt(c, i + 1);
        }
      }
    }

    ghost predicate ChainsValid()
      reads this, data, nodes
    {
      |chains| == data.Length == DICT_SIZE && forall p :: 0 <= p < DICT_SIZE ==> ChainValid(p)
    }

    /** The write itself in an empty bucket: only the links are looked at. */
    method Place(n: DictNode<V>)
      requires ChainsValid() && n !in nodes && n.next == null && chains[Slot(n.k)] == []
      modifies data, `chains, `nodes
      ensures ChainsValid() && nodes == old(nodes) + {n}
      ensures chains == old(chains)[Slot(n.k) := [n]]
    {
      hide Slot;
      ghost var p := Slot(n.k);
      data[Slot(n.k)] := n;
      chains := chains[p := [n]];
      nodes := nodes + {n};
      forall q | 0 <= q < DICT_SIZE ensures ChainValid(q) {
        assert old(ChainValid(q));
        assert q != p ==> chains[q] == old(chains[q]);
      }
    }

    /** d.data[p] = &dictNode{...} in an empty bucket */
    method AddFirst(key: Key, value: V)
      requires Valid() && chains[Slot(key)] == [] && key !in model
      modifies this, data
      ensures Valid() && fresh(nodes - old(nodes)) && model == old(model)[key := value]
    {
      hide ChainValid, Slot;
      var n := new DictNode(key, value);
      Place(n);
      Grow(n, []);
    }

    /** The write itself behind a node: only the links are looked at. */
    method Attach(node: DictNode<V>, n: DictNode<V>)
      requires ChainsValid() && n !in nodes && n.next == null
      requires var c := chains[Slot(n.k)]; c != [] && node == c[|c| - 1] && n.k !in ChainKeys(c)
      modifies node`next, `chains, `nodes
      ensures ChainsValid() && nodes == old(nodes) + {n}
      ensures chains == old(chains)[Slot(n.k) := old(chains[Slot(n.k)]) + [n]]
    {
      ghost var p := Slot(n.k);
      ghost var c := chains[p];
      assert ChainValid(p);
      LastInNodes(c, nodes);
      ghost var before := map m | m in nodes :: m.next;
      node.next := n;
      chains := chains[p := c + [n]];
      nodes := nodes + {n};
      assert nodes == before.Keys + {n};
      forall q | 0 <= q < DICT_SIZE ensures ChainValid(q) {
        assert old(ChainValid(q));
        if q == p {
          LinksGrow(c, before, node, n);
        } else {
          assert chains[q] == old(chains[q]);
          LinksStay(chains[q], before, node, n);
        }
      }
    }

    /** A chain that grows keeps its nodes and its keys. */
    lemma ChainsGrow(cs: seq<seq<DictNode<V>>>, p: nat, n: DictNode<V>)
      requires p < |cs|
      ensures var ds := cs[p := cs[p] + [n]];
              && (forall q, m :: 0 <= q < |cs| && m in cs[q] ==> m in ds[q])
              && (forall q, k :: 0 <= q < |cs| && k in ChainKeys(cs[q]) ==> k in ChainKeys(ds[q]))
    {
      assert ChainKeys(cs[p] + [n]) == ChainKeys(cs[p]) + [n.k];
    }

    /** node.next = &dictNode{...} at the end of a chain */
    method AddLast(node: DictNode<V>, key: Key, value: V)
      requires Valid() && key !in model
      requires chains[Slot(key)] != [] && node == chains[Slot(key)][|chains[Slot(key)]| - 1]
      modifies this, nodes
      ensures Valid() && fresh(nodes - old(nodes)) && model == old(model)[key := value]
    {
      hide ChainValid, Slot, Links, NodeAt, ChainKeys;
      ghost var p := Slot(key);
      ghost var c := chains[p];
      KeyNotInChain(key);
      LastOfChain(p);
      var n := new DictNode(key, value);
      Attach(node, n);
      ChainsGrow(old(chains), p, n);
      Grow(n, c);
    }

    /** d.size += 1, and the map takes the new node in. */
    method Grow(n: DictNode<V>, ghost c: seq<DictNode<V>>)
      requires ChainsValid() && n in nodes && n.k !in model && size == |model|
      requires chains[Slot(n.k)] == c + [n]
      requires forall m :: m in nodes && m != n ==> m in chains[Slot(m.k)] && m.k in model && model[m.k] == m.v
      requires forall k :: k in model ==> k in ChainKeys(chains[Slot(k)])
      modifies `model, `size
      ensures Valid() && model == old(model)[n.k := n.v]
    {
      model := model[n.k := n.v];
      size := size + 1;
      assert chains[Slot(n.k)][|c|] == n;
      forall p | 0 <= p < DICT_SIZE ensures ChainValid(p) {
        assert old(ChainValid(p));
      }
    }

    lemma LastOfChain(p: nat)
      requires Valid() && p < DICT_SIZE && chains[p] != []
      ensures chains[p][|chains[p]| - 1] in nodes
    {
      ChainOf(p);
      LastInNodes(chains[p], nodes);
    }

    lemma KeyNotInChain(key: Key)
      requires Valid() && key !in model
      ensures key !in ChainKeys(chains[Slot(key)])
    {
      assert ChainValid(Slot(key));
    }

    lemma LastInNodes(c: seq<DictNode<V>>, all: set<DictNode<V>>)
      requires Links(c, all) && c != []
      ensures c[|c| - 1] in all
    {
    }

    method Set(key: Key, value: V)
      requires Valid()
      modifies this, data, nodes
      ensures Valid() && fresh(nodes - old(nodes))
      ensures model == old(model)[key := value]
    {
      hide Valid, Slot;
      var p := Slot(key);
      ChainOf(p);
      ghost var c := chains[p];
      var node := data[p];
      if node == null {
        NotInChain(key);
        AddFirst(key, value);
        return;
      }
      ghost var i := 0;
      while true
        invariant 0 <= i < |c| && node == c[i]
        invariant forall j :: 0 <= j < i ==> c[j].k != key
        decreases |c| - i
      {
        assert c[i] in nodes && c[i].next == NodeAt(c, i + 1);
        if node.k == key {
          Update(node, value);
          return;
        }
        if node.next != null {
          node := node.next;
          i := i + 1;
          continue;
        }
        NotInChain(key);
        AddLast(node, key, value);
        return;
      }
    }

    // ----- listing -----

    /** The keys of the buckets below p, bucket by bucket. */
    ghost function KeysBelow(p: nat): seq<Key>
      requires p <= |chains|
      reads this
    {
      if p == 0 then [] else KeysBelow(p - 1) + ChainKeys(chains[p - 1])
    }

    /** structure/dict.go:89-93 */
    method AppendBucket(p: nat, before: seq<Key>) returns (keys: seq<Key>)
      requires Valid() && p < DICT_SIZE
      ensures keys == before + ChainKeys(chains[p])
    {
      hide Valid;
      ChainOf(p);
      ghost var c := chains[p];
      var node := data[p];
      keys := before;
      ghost var j := 0;
      while node != null
        invariant 0 <= j <= |c| && node == NodeAt(c, j)
        invariant keys == before + ChainKeys(c)[..j]
        decreases |c| - j
      {
        assert c[j] in nodes && c[j].next == NodeAt(c, j + 1);
        keys := keys + [node.k];
        node := node.next;
        j := j + 1;
      }
      assert ChainKeys(c)[..j] == ChainKeys(c);
    }

    method Keys() returns (keys: seq<Key>)
      requires Valid()
      ensures forall i, j :: 0 <= i < j < |keys| ==> keys[i] != keys[j]
      ensures forall k :: k in keys <==> k in model
      ensures |keys| == |model|
    {
      hide Valid;
      keys := [];
      ChainOf(0);
      for i := 0 to DICT_SIZE
        invariant keys == KeysBelow(i)
      {
        keys := AppendBucket(i, keys);
      }
      KeysBelowDistinct(DICT_SIZE);
      AllKeysBelow(keys);
      SetSize(keys);
      assert (set k | k in keys) == model.Keys;
    }

    lemma {:induction false} KeysBelowDistinct(p: nat)
      requires Valid() && p <= DICT_SIZE
      ensures forall i :: 0 <= i < |KeysBelow(p)| ==> Slot(KeysBelow(p)[i]) < p && KeysBelow(p)[i] in model
      ensures forall i, j :: 0 <= i < j < |KeysBelow(p)| ==> KeysBelow(p)[i] != KeysBelow(p)[j]
    {
      if p > 0 {
        KeysBelowDistinct(p - 1);
        var c := chains[p - 1];
        assert ChainValid(p - 1);
        forall i | 0 <= i < |c| ensures c[i].k in model {
          assert c[i] in nodes;
        }
      }
    }

    lemma InItsChain(k: Key)
      requires Valid() && k in model
      ensures |chains| == DICT_SIZE && k in ChainKeys(chains[Slot(k)])
    {
    }

    lemma {:induction false} InKeysBelow(k: Key, p: nat)
      requires Valid() && k in model && Slot(k) < p <= DICT_SIZE
      ensures k in KeysBelow(p)
    {
      hide Valid, Slot, ChainKeys;
      InItsChain(k);
      if Slot(k) < p - 1 {
        InKeysBelow(k, p - 1);
      }
    }

    lemma AllKeysBelow(keys: seq<Key>)
      requires Valid() && keys == KeysBelow(DICT_SIZE)
      ensures forall k :: k in keys <==> k in model
    {
      KeysBelowDistinct(DICT_SIZE);
      forall k | k in model ensures k in keys {
        InKeysBelow(k, DICT_SIZE);
      }
    }

    /** The number of the 4096 buckets that some key falls into. */
    method FillCount() returns (count: nat)
      requires Valid()
      ensures count == |set k | k in model :: hash(k) % 4096|
    {
      SlotsAre();
      hide Valid, Slot;
      count := 0;
      ChainOf(0);
      ghost var filled: set<nat> := {};
      for i := 0 to DICT_SIZE
        invariant count == |filled|
        invariant filled == set p | 0 <= p < i && chains[p] != []
      {
        ChainOf(i);
        if data[i] != null {
          count := count + 1;
          filled := filled + {i};
        }
      }
      FilledSlots(filled);
    }

    lemma SlotsAre()
      ensures (set k | k in model :: Slot(k)) == set k | k in model :: hash(k) % 4096
    {
    }

    lemma FilledSlots(filled: set<nat>)
      requires Valid() && filled == set p | 0 <= p < DICT_SIZE && chains[p] != []
      ensures filled == set k | k in model :: Slot(k)
    {
      forall p | p in filled ensures p in set k | k in model :: Slot(k) {
        assert ChainValid(p);
        var n := chains[p][0];
        assert n in nodes && n.k in model && Slot(n.k) == p;
      }
      forall k | k in model ensures Slot(k) in filled {
        assert k in ChainKeys(chains[Slot(k)]);
      }
    }
  }
}
