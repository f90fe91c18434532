/** The readers of the radix tree in structure/prefixtree.go: Lookup and MatchPrefix. */
module PrefixTree {
  import opened Bytes

  type Text = seq<byte>

  /** A node as a value: its label, here called edge, its value (None is nil), and its subnodes. */
  datatype Tree<V> = Tree(edge: Text, value: Option<V>, nodes: seq<Tree<V>>)

  /** A match: what is left of the key, and the value. */
  datatype Match<V> = Match(suffix: Text, value: V)

  /** No empty label anywhere. */
  predicate Labelled<V>(ts: seq<Tree<V>>) {
    forall i :: 0 <= i < |ts| ==> ts[i].edge != [] && Labelled(ts[i].nodes)
  }

  /** A radix tree: siblings begin with different bytes. */
  predicate Radix<V>(ts: seq<Tree<V>>) {
    && Labelled(ts)
    && (forall i, j :: 0 <= i < j < |ts| ==> ts[i].edge[0] != ts[j].edge[0])
    && (forall i :: 0 <= i < |ts| ==> Radix(ts[i].nodes))
  }

  // ----- what a tree stores -----

  /** Some path from the top spells key and ends in a node with value v. */
  ghost predicate Stores<V>(ts: seq<Tree<V>>, key: Text, v: V)
    decreases ts
  {
    exists i :: 0 <= i < |ts| && StoredUnder(ts[i], key, v)
  }

  ghost predicate StoredUnder<V>(t: Tree<V>, key: Text, v: V)
    decreases t
  {
    t.edge <= key &&
    if key == t.edge then t.value == Some(v) else Stores(t.nodes, key[|t.edge|..], v)
  }

  // ----- the walk -----

  /** Where a scan for the byte first stops: at a label that begins with it, at an empty label, or at |ts|. */
  function FirstWith<V>(ts: seq<Tree<V>>, first: byte): (i: nat)
    ensures i <= |ts|
    ensures forall j :: 0 <= j < i ==> ts[j].edge != [] && ts[j].edge[0] != first
    ensures i < |ts| ==> ts[i].edge == [] || ts[i].edge[0] == first
  {
    if ts == [] || ts[0].edge == [] || ts[0].edge[0] == first then 0 else 1 + FirstWith(ts[1..], first)
  }

  /** The scan stops at a node to follow. */
  predicate Followed<V>(ts: seq<Tree<V>>, i: nat) {
    i < |ts| && ts[i].edge != []
  }

  /** The walk comes to a scan that reads the first byte of an empty label: index out of range. */
  predicate Faults<V>(ts: seq<Tree<V>>, key: Text)
    decreases |key|, 1
  {
    key != [] &&
    var i := FirstWith(ts, key[0]);
    i < |ts| && (ts[i].edge == [] || FaultsUnder(ts[i], key))
  }

  predicate FaultsUnder<V>(t: Tree<V>, key: Text)
    requires t.edge != []
    decreases |key|, 0
  {
    key != t.edge && t.edge <= key && Faults(t.nodes, key[|t.edge|..])
  }

  function Matches<V>(ts: seq<Tree<V>>, key: Text): seq<Match<V>>
    decreases |key|, 1
  {
    if key == [] then []
    else
      var i := FirstWith(ts, key[0]);
      if Followed(ts, i) then MatchesUnder(ts[i], key) else []
  }

  function MatchesUnder<V>(t: Tree<V>, key: Text): seq<Match<V>>
    requires t.edge != []
    decreases |key|, 0
  {
    if key == t.edge then Own(t, [])
    else if !(t.edge <= key) then []
    else Own(t, key[|t.edge|..]) + Matches(t.nodes, key[|t.edge|..])
  }

  /** The match of a node itself, if it has a value. */
  function Own<V>(t: Tree<V>, rest: Text): seq<Match<V>> {
    if t.value.Some? then [Match(rest, t.value.value)] else []
  }

  function Find<V>(ts: seq<Tree<V>>, key: Text): Option<V>
    decreases |key|, 1
  {
    if key == [] then None
    else
      var i := FirstWith(ts, key[0]);
      if Followed(ts, i) then FindUnder(ts[i], key) else None
  }

  function FindUnder<V>(t: Tree<V>, key: Text): Option<V>
    requires t.edge != []
    decreases |key|, 0
  {
    if key == t.edge then t.value
    else if !(t.edge <= key) then None
    else Find(t.nodes, key[|t.edge|..])
  }

  /** Without empty labels no walk fails. */
  lemma {:induction false} LabelledNeverFaults<V>(ts: seq<Tree<V>>, key: Text)
    requires Labelled(ts)
    ensures !Faults(ts, key)
    decreases |key|
  {
    if key != [] {
      var i := FirstWith(ts, key[0]);
      if i < |ts| && ts[i].edge <= key {
        LabelledNeverFaults(ts[i].nodes, key[|ts[i].edge|..]);
      }
    }
  }

  /** An empty label fails every lookup of a key whose first byte no label before it begins with. */
  lemma EmptyLabelFaults<V>(ts: seq<Tree<V>>, i: nat, key: Text)
    requires i < |ts| && ts[i].edge == [] && key != []
    requires forall j :: 0 <= j < i ==> ts[j].edge == [] || ts[j].edge[0] != key[0]
    ensures Faults(ts, key)
  {
  }

  // ----- the walk finds what is stored -----

  /** In a radix tree only the first sibling with the right first byte can store a key. */
  lemma OnlyFirst<V>(ts: seq<Tree<V>>, key: Text, v: V)
    requires Radix(ts) && key != []
    ensures var i := FirstWith(ts, key[0]); Stores(ts, key, v) <==> i < |ts| && StoredUnder(ts[i], key, v)
  {
    var i := FirstWith(ts, key[0]);
    if Stores(ts, key, v) {
      var j :| 0 <= j < |ts| && StoredUnder(ts[j], key, v);
      assert ts[j].edge[0] == key[0];
    }
  }

  /** Keys stored below a node are not empty. */
  lemma EmptyIsNotStored<V>(ts: seq<Tree<V>>, v: V)
    requires Labelled(ts)
    ensures !Stores(ts, [], v)
  {
  }

  /** Lookup returns exactly the stored values. */
  lemma {:induction false} FindIsStored<V>(ts: seq<Tree<V>>, key: Text, v: V)
    requires Radix(ts)
    ensures Find(ts, key) == Some(v) <==> Stores(ts, key, v)
    decreases |key|
  {
    if key == [] {
      EmptyIsNotStored(ts, v);
    } else {
      OnlyFirst(ts, key, v);
      var i := FirstWith(ts, key[0]);
      if i < |ts| && ts[i].edge <= key && key != ts[i].edge {
        FindIsStored(ts[i].nodes, key[|ts[i].edge|..], v);
      }
    }
  }

  /** Some stored prefix of key has value v and leaves suffix. */
  ghost predicate StoresPrefix<V>(ts: seq<Tree<V>>, key: Text, m: Match<V>) {
    |m.suffix| <= |key| && key[|key| - |m.suffix|..] == m.suffix && Stores(ts, key[..|key| - |m.suffix|], m.value)
  }

  /** What it takes for the first n bytes of key to be stored under t. */
  lemma PrefixUnderTree<V>(t: Tree<V>, key: Text, n: nat, v: V)
    requires n <= |key|
    ensures StoredUnder(t, key[..n], v) <==>
            && t.edge <= key && |t.edge| <= n
            && if n == |t.edge| then t.value == Some(v) else Stores(t.nodes, key[|t.edge|..][..n - |t.edge|], v)
  {
    hide Stores;
    var e := |t.edge|;
    if t.edge <= key && e <= n {
      assert t.edge == key[..e] == key[..n][..e];
      assert key[..n][e..] == key[e..][..n - e];
    }
  }

  /** The same from the top: only one node can be followed. */
  lemma PrefixFromTop<V>(ts: seq<Tree<V>>, key: Text, n: nat, v: V)
    requires Radix(ts) && key != [] && n <= |key|
    ensures var i := FirstWith(ts, key[0]);
            Stores(ts, key[..n], v) <==>
            && i < |ts| && ts[i].edge <= key && |ts[i].edge| <= n
            && if n == |ts[i].edge| then ts[i].value == Some(v)
               else Stores(ts[i].nodes, key[|ts[i].edge|..][..n - |ts[i].edge|], v)
  {
    hide Stores, StoredUnder, FirstWith;
    var i := FirstWith(ts, key[0]);
    if n == 0 {
      assert key[..n] == [];
      EmptyIsNotStored(ts, v);
    } else {
      assert key[..n][0] == key[0];
      OnlyFirst(ts, key[..n], v);
      if i < |ts| {
        PrefixUnderTree(ts[i], key, n, v);
      }
    }
  }

  lemma RestOfRest(key: Text, e: nat, n: nat)
    requires e <= n <= |key|
    ensures key[e..][n - e..] == key[n..]
    ensures n == e ==> key[e..][..n - e] == []
  {
  }

  /** The stored prefixes of key: the label of the one node to follow, and those of the rest below it. */
  lemma PrefixUnder<V>(ts: seq<Tree<V>>, key: Text, m: Match<V>)
    requires Radix(ts) && key != []
    ensures var i := FirstWith(ts, key[0]);
            StoresPrefix(ts, key, m) <==>
            && i < |ts| && ts[i].edge <= key
            && (var rest := key[|ts[i].edge|..];
                (m.suffix == rest && ts[i].value == Some(m.value)) || (rest != [] && StoresPrefix(ts[i].nodes, rest, m)))
  {
    var i, n := FirstWith(ts, key[0]), |key| - |m.suffix|;
    assert i < |ts| ==> Labelled(ts[i].nodes);
    hide Stores, StoredUnder, FirstWith, Radix, Labelled;
    if n >= 0 {
      PrefixFromTop(ts, key, n, m.value);
      if i < |ts| && ts[i].edge <= key && |ts[i].edge| <= n {
        EmptyIsNotStored(ts[i].nodes, m.value);
        RestOfRest(key, |ts[i].edge|, n);
      }
    }
  }

  lemma MatchesFront<V>(ts: seq<Tree<V>>, key: Text)
    requires Labelled(ts) && key != []
    ensures var i := FirstWith(ts, key[0]);
            Matches(ts, key) ==
            if i == |ts| || !(ts[i].edge <= key) then []
            else
              var rest := key[|ts[i].edge|..];
              (if ts[i].value.Some? then [Match(rest, ts[i].value.value)] else []) +
              (if rest == [] then [] else Matches(ts[i].nodes, rest))
  {
  }

  /** MatchPrefix returns exactly the stored prefixes of key with what they leave of it, shortest prefix first. */
  lemma {:induction false} MatchesAreStoredPrefixes<V>(ts: seq<Tree<V>>, key: Text)
    requires Radix(ts)
    ensures forall m :: m in Matches(ts, key) <==> StoresPrefix(ts, key, m)
    ensures forall m :: m in Matches(ts, key) ==> |m.suffix| < |key|
    ensures forall i, j :: 0 <= i < j < |Matches(ts, key)| ==> |Matches(ts, key)[i].suffix| > |Matches(ts, key)[j].suffix|
    decreases |key|
  {
    hide StoresPrefix;
    if key == [] {
      forall m ensures !StoresPrefix(ts, key, m) {
        NothingBelowEmpty(ts, m);
      }
    } else {
      MatchesFront(ts, key);
      var i := FirstWith(ts, key[0]);
      if i < |ts| && ts[i].edge <= key {
        MatchesAreStoredPrefixes(ts[i].nodes, key[|ts[i].edge|..]);
      }
      forall m ensures m in Matches(ts, key) <==> StoresPrefix(ts, key, m) {
        PrefixUnder(ts, key, m);
      }
    }
  }

  lemma NothingBelowEmpty<V>(ts: seq<Tree<V>>, m: Match<V>)
    requires Labelled(ts)
    ensures !StoresPrefix(ts, [], m)
  {
    if StoresPrefix(ts, [], m) {
      EmptyIsNotStored(ts, m.value);
    }
  }

  /** On any tree, radix or not, what Lookup returns is stored. */
  lemma {:induction false} FoundIsStored<V>(ts: seq<Tree<V>>, key: Text, v: V)
    requires Find(ts, key) == Some(v)
    ensures Stores(ts, key, v)
    decreases |key|
  {
    var i := FirstWith(ts, key[0]);
    if key != ts[i].edge {
      FoundIsStored(ts[i].nodes, key[|ts[i].edge|..], v);
    }
    assert StoredUnder(ts[i], key, v);
  }

  /** On any tree what MatchPrefix returns are stored prefixes, each longer than the one before. */
  lemma {:induction false} MatchedAreStored<V>(ts: seq<Tree<V>>, key: Text)
    ensures forall m :: m in Matches(ts, key) ==> StoresPrefix(ts, key, m) && |m.suffix| < |key|
    ensures forall i, j :: 0 <= i < j < |Matches(ts, key)| ==> |Matches(ts, key)[i].suffix| > |Matches(ts, key)[j].suffix|
    decreases |key|
  {
    if key != [] {
      var i := FirstWith(ts, key[0]);
      if Followed(ts, i) && ts[i].edge <= key {
        var t, rest := ts[i], key[|ts[i].edge|..];
        MatchedAreStored(t.nodes, rest);
        forall m | m in Matches(ts, key) ensures StoresPrefix(ts, key, m) {
          var n := |key| - |m.suffix|;
          PrefixUnderTree(t, key, n, m.value);
          RestOfRest(key, |t.edge|, n);
          assert StoredUnder(t, key[..n], m.value);
        }
      }
    }
  }

  /** Lookup is the member of MatchPrefix that leaves nothing, on any tree. */
  lemma {:induction false} LookupIsEmptySuffixMatch<V>(ts: seq<Tree<V>>, key: Text, v: V)
    ensures Find(ts, key) == Some(v) <==> Match([], v) in Matches(ts, key)
    decreases |key|
  {
    if key != [] {
      var i := FirstWith(ts, key[0]);
      if Followed(ts, i) && ts[i].edge <= key && key != ts[i].edge {
        LookupIsEmptySuffixMatch(ts[i].nodes, key[|ts[i].edge|..], v);
      }
    }
  }

  /** The walk for key has come to node t with k of it left and these matches. */
  ghost predicate OnWalk<V>(ts: seq<Tree<V>>, key: Text, t: Tree<V>, k: Text, before: seq<Match<V>>)
    requires t.edge != []
  {
    before + MatchesUnder(t, k) == Matches(ts, key) && (FaultsUnder(t, k) <==> Faults(ts, key))
  }

  lemma EmptyKey<V>(ts: seq<Tree<V>>)
    ensures Matches(ts, []) == [] && !Faults(ts, [])
  {
  }

  lemma WalkBegins<V>(ts: seq<Tree<V>>, key: Text)
    requires key != []
    ensures var i := FirstWith(ts, key[0]);
            if i == |ts| then Matches(ts, key) == [] && !Faults(ts, key)
            else if ts[i].edge == [] then Faults(ts, key)
            else OnWalk(ts, key, ts[i], key, [])
  {
  }

  lemma WalkEnds<V>(ts: seq<Tree<V>>, key: Text, t: Tree<V>, k: Text, before: seq<Match<V>>)
    requires t.edge != [] && OnWalk(ts, key, t, k, before) && (k == t.edge || !(t.edge <= k))
    ensures Matches(ts, key) == (if k == t.edge && t.value.Some? then before + [Match([], t.value.value)] else before)
    ensures !Faults(ts, key)
  {
  }

  lemma WalkGoesOn<V>(ts: seq<Tree<V>>, key: Text, t: Tree<V>, k: Text, before: seq<Match<V>>)
    requires t.edge != [] && OnWalk(ts, key, t, k, before) && t.edge <= k && k != t.edge
    ensures var rest := k[|t.edge|..];
            && rest != []
            && var i, now := FirstWith(t.nodes, rest[0]), before + Own(t, rest);
               if i == |t.nodes| then Matches(ts, key) == now && !Faults(ts, key)
               else if t.nodes[i].edge == [] then Faults(ts, key)
               else OnWalk(ts, key, t.nodes[i], rest, now)
  {
    hide Matches, MatchesUnder, Faults, FaultsUnder, FirstWith, Own;
    var rest := k[|t.edge|..];
    UnderAt(t, k);
    WalkBegins(t.nodes, rest);
    Regroup(before, Own(t, rest), Matches(t.nodes, rest));
    assert before + Own(t, rest) + [] == before + Own(t, rest);
    var i := FirstWith(t.nodes, rest[0]);
    if i < |t.nodes| && t.nodes[i].edge != [] {
      assert [] + MatchesUnder(t.nodes[i], rest) == MatchesUnder(t.nodes[i], rest);
    }
  }

  lemma UnderAt<V>(t: Tree<V>, k: Text)
    requires t.edge != [] && t.edge <= k && k != t.edge
    ensures MatchesUnder(t, k) == Own(t, k[|t.edge|..]) + Matches(t.nodes, k[|t.edge|..])
    ensures FaultsUnder(t, k) <==> Faults(t.nodes, k[|t.edge|..])
  {
  }

  lemma Regroup<V>(a: seq<Match<V>>, b: seq<Match<V>>, c: seq<Match<V>>)
    ensures a + (b + c) == a + b + c
  {
  }

  lemma OwnMatch<V>(t: Tree<V>, rest: Text)
    ensures forall before: seq<Match<V>> ::
              before + Own(t, rest) == if t.value.Some? then before + [Match(rest, t.value.value)] else before
  {
  }

  // ----- the loops over heap nodes -----

  class PrefixTreeNode<V> {
    var edge: Text
    var nodes: seq<PrefixTreeNode<V>>
    var value: Option<V>

    constructor (edge: Text, value: Option<V>, nodes: seq<PrefixTreeNode<V>>)
      ensures this.edge == edge && this.value == value && this.nodes == nodes
    {
      this.edge, this.value, this.nodes := edge, value, nodes;
    }
  }

  /** The heap nodes hold the tree t. */
  ghost predicate Holds<V>(n: PrefixTreeNode<V>, t: Tree<V>)
    reads *
    decreases t, 0
  {
    n.edge == t.edge && n.value == t.value && HoldAll(n.nodes, t.nodes)
  }

  ghost predicate HoldAll<V>(ns: seq<PrefixTreeNode<V>>, ts: seq<Tree<V>>)
    reads *
    decreases ts, 1
  {
    |ns| == |ts| && forall i :: 0 <= i < |ns| ==> Holds(ns[i], ts[i])
  }

  /** The loops `for _, node := range nodes { if node.label[0] == char ...`, which fail on an empty label. */
  method FindNode<V>(ns: seq<PrefixTreeNode<V>>, first: byte, ghost ts: seq<Tree<V>>) returns (i: nat, fault: bool)
    requires HoldAll(ns, ts)
    ensures i == FirstWith(ts, first)
    ensures fault <==> i < |ts| && ts[i].edge == []
  {
    i, fault := 0, false;
    while i < |ns|
      invariant 0 <= i <= |ns|
      invariant forall j :: 0 <= j < i ==> ts[j].edge != [] && ts[j].edge[0] != first
    {
      assert Holds(ns[i], ts[i]);
      if |ns[i].edge| == 0 {
        fault := true;
        break;
      }
      if ns[i].edge[0] == first {
        break;
      }
      i := i + 1;
    }
    FirstWithUnique(ts, first, i);
  }

  lemma FirstWithUnique<V>(ts: seq<Tree<V>>, first: byte, i: nat)
    requires i <= |ts| && (forall j :: 0 <= j < i ==> ts[j].edge != [] && ts[j].edge[0] != first)
    requires i < |ts| ==> ts[i].edge == [] || ts[i].edge[0] == first
    ensures FirstWith(ts, first) == i
  {
  }

  class PrefixTree<V> {
    var root: PrefixTreeNode<V>

    constructor (root: PrefixTreeNode<V>)
      ensures this.root == root
    {
      this.root := root;
    }

    method Lookup(key: Text, ghost ts: seq<Tree<V>>) returns (value: Option<V>, fault: bool)
      requires HoldAll(root.nodes, ts)
      ensures fault <==> Faults(ts, key)
      ensures !fault ==> value == Find(ts, key)
    {
      if |key| == 0 {
        return None, false;
      }
      var i;
      i, fault := FindNode(root.nodes, key[0], ts);
      if fault || i == |root.nodes| {
        return None, fault;
      }
      var node, k := root.nodes[i], key;
      ghost var t := ts[i];
      while true
        invariant Holds(node, t) && t.edge != []
        invariant FindUnder(t, k) == Find(ts, key)
        invariant FaultsUnder(t, k) <==> Faults(ts, key)
        decreases |k|
      {
        if k == node.edge {
          return node.value, false;
        }
        var max := |node.edge|;
        if max > |k| || k[..max] != node.edge {
          return None, false;
        }
        k := k[max..];
        i, fault := FindNode(node.nodes, k[0], t.nodes);
        if fault || i == |node.nodes| {
          return None, fault;
        }
        assert Holds(node.nodes[i], t.nodes[i]);
        node, t := node.nodes[i], t.nodes[i];
      }
    }

    method MatchPrefix(key: Text, ghost ts: seq<Tree<V>>) returns (matches: seq<Match<V>>, fault: bool)
      requires HoldAll(root.nodes, ts)
      ensures fault <==> Faults(ts, key)
      ensures !fault ==> matches == Matches(ts, key)
    {
      hide Matches, Faults, FirstWith, OnWalk, Own;
      matches := [];
      if |key| == 0 {
        EmptyKey(ts);
        return [], false;
      }
      WalkBegins(ts, key);
      var i;
      i, fault := FindNode(root.nodes, key[0], ts);
      if fault || i == |root.nodes| {
        return;
      }
      var node, k := root.nodes[i], key;
      ghost var t := ts[i];
      while true
        invariant Holds(node, t) && t.edge != [] && OnWalk(ts, key, t, k, matches)
        decreases |k|
      {
        if k == node.edge {
          WalkEnds(ts, key, t, k, matches);
          if node.value == None {
            return matches, false;
          }
          matches := matches + [Match([], node.value.value)];
          return matches, false;
        }
        var max := |node.edge|;
        if max > |k| || k[..max] != node.edge {
          WalkEnds(ts, key, t, k, matches);
          return matches, false;
        }
        WalkGoesOn(ts, key, t, k, matches);
        k := k[max..];
        OwnMatch(t, k);
        if node.value != None {
          matches := matches + [Match(k, node.value.value)];
        }
        i, fault := FindNode(node.nodes, k[0], t.nodes);
        if fault || i == |node.nodes| {
          return;
        }
        assert Holds(node.nodes[i], t.nodes[i]);
        node, t := node.nodes[i], t.nodes[i];
      }
    }
  }
}
