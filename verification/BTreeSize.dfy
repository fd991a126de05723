/**
  How many nodes and levels a B-tree has (test/realworld/c/btree.c): every allocated node
  is in the tree and holds a key, so the node pool lasts for as many keys as it has nodes.
 */
module BTreeSize {
  import opened BTree

  function Nodes(t: Tree): nat {
    1 + KidNodes(t.kids)
  }

  function KidNodes(kids: seq<Tree>): nat {
    if kids == [] then 0 else Nodes(kids[0]) + KidNodes(kids[1..])
  }

  lemma {:induction false} KidNodesConcat(a: seq<Tree>, b: seq<Tree>)
    ensures KidNodes(a + b) == KidNodes(a) + KidNodes(b)
  {
    if a == [] {
      assert a + b == b;
    } else {
      KidNodesConcat(a[1..], b);
      assert (a + b)[1..] == a[1..] + b;
    }
  }

  lemma KidNodesAround(a: seq<Tree>, w: seq<Tree>, b: seq<Tree>)
    ensures KidNodes(a + w + b) == KidNodes(a) + KidNodes(w) + KidNodes(b)
  {
    KidNodesConcat(a + w, b);
    KidNodesConcat(a, w);
  }

  lemma OneNode(k: Tree)
    ensures KidNodes([k]) == Nodes(k)
  {
    assert [k][1..] == [];
  }

  lemma TwoNodes(k: Tree, l: Tree)
    ensures KidNodes([k, l]) == Nodes(k) + Nodes(l)
  {
    assert [k, l][1..] == [l];
    OneNode(l);
  }

  // ----- nodes against keys -----

  /** Every node holds a key. */
  lemma {:induction false} NodesAtMostKeys(t: Tree)
    requires Filled(t)
    ensures Nodes(t) <= |InOrder(t)|
    decreases t
  {
    if t.kids != [] {
      forall k | k in t.kids ensures Nodes(k) <= |InOrder(k)| {
        NodesAtMostKeys(k);
      }
      WeaveLength(t.kids, t.keys);
    }
  }

  lemma {:induction false} WeaveLength(kids: seq<Tree>, keys: seq<int>)
    requires |kids| == |keys| + 1 && forall k :: k in kids ==> Nodes(k) <= |InOrder(k)|
    ensures KidNodes(kids) + |keys| <= |Weave(kids, keys)|
    decreases |kids|
  {
    if keys == [] {
      assert kids == [kids[0]];
      OneNode(kids[0]);
    } else {
      WeaveLength(kids[1..], keys[1..]);
    }
  }

  // ----- what operations do to the number of nodes -----

  lemma SplitNodes(p: Tree, i: nat, id: nat)
    requires i < |p.kids| && i <= |p.keys| && |p.kids[i].keys| == MAX_KEYS
    requires p.kids[i].kids == [] || |p.kids[i].kids| == MAX_KEYS + 1
    ensures Nodes(SplitKid(p, i, id)) == Nodes(p) + 1
  {
    var k := p.kids[i];
    var l, r := LeftHalf(k), RightHalf(k, id);
    HalvesNodes(k, id);
    assert p.kids == p.kids[..i] + [k] + p.kids[i + 1..];
    KidNodesAround(p.kids[..i], [k], p.kids[i + 1..]);
    OneNode(k);
    KidNodesAround(p.kids[..i], [l, r], p.kids[i + 1..]);
    TwoNodes(l, r);
  }

  lemma HalvesNodes(k: Tree, id: nat)
    requires |k.keys| == MAX_KEYS && (k.kids == [] || |k.kids| == MAX_KEYS + 1)
    ensures Nodes(LeftHalf(k)) + Nodes(RightHalf(k, id)) == Nodes(k) + 1
  {
    if k.kids != [] {
      assert k.kids == k.kids[..2] + k.kids[2..];
      KidNodesConcat(k.kids[..2], k.kids[2..]);
    }
  }

  lemma ReplaceNodes(p: Tree, i: nat, k: Tree)
    requires i < |p.kids|
    ensures Nodes(WithKid(p, i, k)) + Nodes(p.kids[i]) == Nodes(p) + Nodes(k)
  {
    var a, b := p.kids[..i], p.kids[i + 1..];
    assert p.kids == a + [p.kids[i]] + b && p.kids[i := k] == a + [k] + b;
    KidNodesAround(a, [p.kids[i]], b);
    KidNodesAround(a, [k], b);
    OneNode(p.kids[i]);
    OneNode(k);
  }

  lemma PreparedNodes(t: Tree, key: int, next: nat)
    requires Filled(t) && t.kids != []
    ensures Nodes(Prepared(t, key, next).0) + next == Nodes(t) + Prepared(t, key, next).2
    ensures Prepared(t, key, next).2 >= next
  {
    var i := Slot(t.keys, key);
    assert t.kids[i] in t.kids;
    if |t.kids[i].keys| == MAX_KEYS {
      SplitNodes(t, i, next);
    }
  }

  /** Insertion allocates exactly the nodes that the tree grows by. */
  lemma {:induction false} InsertNodes(t: Tree, key: int, next: nat, h: nat)
    requires Filled(t) && Uniform(t, h) && |t.keys| < MAX_KEYS
    ensures Nodes(Insert(t, key, next, h).0) + next == Nodes(t) + Insert(t, key, next, h).1
    ensures Insert(t, key, next, h).1 >= next
    decreases h
  {
    if t.kids != [] {
      PreparedShape(t, key, next, h);
      PreparedNodes(t, key, next);
      var (p, i, n) := Prepared(t, key, next);
      var (k, n') := Insert(p.kids[i], key, n, h - 1);
      InsertUnfolds(t, key, next, h, p, i, n, k, n');
      InsertNodes(p.kids[i], key, n, h - 1);
      ReplaceNodes(p, i, k);
    }
  }

  lemma InsertRootNodes(t: Tree, key: int, next: nat, h: nat)
    requires Filled(t) && Uniform(t, h)
    ensures Nodes(InsertRoot(t, key, next, h).0) + next == Nodes(t) + InsertRoot(t, key, next, h).1
  {
    if |t.keys| == MAX_KEYS {
      var r := NewRoot(t, next);
      OneNode(t);
      SplitShape(r, 0, next + 1, h + 1);
      SplitNodes(r, 0, next + 1);
      InsertNodes(SplitKid(r, 0, next + 1), key, next + 2, h + 1);
    } else {
      InsertNodes(t, key, next, h);
    }
  }

  /** A pool that holds exactly the nodes of a tree has room for another key if it has one node per key. */
  lemma RoomForKey(t: Tree, key: int, h: nat, pool: nat)
    requires Filled(t) && Uniform(t, h) && Sorted(InOrder(t)) && |InOrder(t)| < pool
    ensures InsertRoot(t, key, Nodes(t), h).1 <= pool
  {
    InsertRootNodes(t, key, Nodes(t), h);
    InsertRootCorrect(t, key, Nodes(t), h);
    var r := InsertRoot(t, key, Nodes(t), h).0;
    NodesAtMostKeys(r);
    assert |multiset(InOrder(r))| == |InOrder(t)| + 1;
  }

  // ----- levels against keys -----

  function TwoTo(n: nat): nat {
    if n == 0 then 1 else 2 * TwoTo(n - 1)
  }

  /** The depth of the leaves is at most logarithmic in the number of keys. */
  lemma {:induction false} HeightIsLogarithmic(t: Tree, h: nat)
    requires Filled(t) && Uniform(t, h)
    ensures TwoTo(h + 1) <= |InOrder(t)| + 1
    decreases h
  {
    if t.kids != [] {
      var a, b := t.kids[0], t.kids[1];
      assert a in t.kids && b in t.kids;
      HeightIsLogarithmic(a, h - 1);
      HeightIsLogarithmic(b, h - 1);
      FirstTwo(t.kids, t.keys);
    }
  }

  lemma FirstTwo(kids: seq<Tree>, keys: seq<int>)
    requires |kids| == |keys| + 1 && keys != []
    ensures |Weave(kids, keys)| >= |InOrder(kids[0])| + 1 + |InOrder(kids[1])|
  {
    var rest := kids[1..];
    assert rest[0] == kids[1];
    assert |Weave(rest, keys[1..])| >= |InOrder(rest[0])|;
  }
}
