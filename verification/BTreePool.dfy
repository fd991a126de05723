/**
  The B-tree in memory (test/realworld/c/btree.c): nodes in a pool, pointers as pool
  indices, arrays of keys and children updated in place.  Every operation is shown to
  do to the stored tree what its counterpart in BTree does to the value.
 */
module BTreePool {
  import opened BTree
  import opened BTreeSize

  const ORDER := 4
  const POOL := 512
  const BUFFER := 1024

  /** ORDER key slots and ORDER + 1 child slots; only the first nkeys (+ 1) count. */
  datatype Node = Node(keys: seq<int>, children: seq<int>, nkeys: nat, leaf: bool)

  predicate WellSized(n: Node) {
    |n.keys| == ORDER && |n.children| == ORDER + 1 && n.nkeys <= MAX_KEYS
  }

  // ----- which tree is stored -----

  ghost predicate Stores(pool: seq<Node>, t: Tree) {
    && t.id < |pool| && WellSized(pool[t.id])
    && pool[t.id].nkeys == |t.keys| && pool[t.id].keys[..|t.keys|] == t.keys
    && pool[t.id].leaf == (t.kids == [])
    && (t.kids != [] ==> |t.kids| == |t.keys| + 1)
    && forall i :: 0 <= i < |t.kids| ==> pool[t.id].children[i] == t.kids[i].id && Stores(pool, t.kids[i])
  }

  ghost function Ids(t: Tree): set<nat> {
    {t.id} + KidIds(t.kids)
  }

  ghost function KidIds(kids: seq<Tree>): set<nat> {
    if kids == [] then {} else Ids(kids[0]) + KidIds(kids[1..])
  }

  /** No node is shared. */
  ghost predicate Apart(t: Tree) {
    && (forall i :: 0 <= i < |t.kids| ==> t.id !in Ids(t.kids[i]) && Apart(t.kids[i]))
    && forall i, j :: 0 <= i < j < |t.kids| ==> Ids(t.kids[i]) !! Ids(t.kids[j])
  }

  lemma {:induction false} KidIdsMember(kids: seq<Tree>, x: nat)
    ensures x in KidIds(kids) <==> exists i :: 0 <= i < |kids| && x in Ids(kids[i])
  {
    if kids != [] {
      KidIdsMember(kids[1..], x);
      if x in KidIds(kids[1..]) {
        var i :| 0 <= i < |kids[1..]| && x in Ids(kids[1..][i]);
        assert x in Ids(kids[i + 1]);
      }
      if exists i :: 0 <= i < |kids| && x in Ids(kids[i]) {
        var i :| 0 <= i < |kids| && x in Ids(kids[i]);
        if i > 0 {
          assert x in Ids(kids[1..][i - 1]);
        }
      }
    }
  }

  lemma KidsInside(t: Tree, i: nat)
    requires i < |t.kids|
    ensures Ids(t.kids[i]) <= Ids(t)
  {
    forall x | x in Ids(t.kids[i]) ensures x in Ids(t) {
      KidIdsMember(t.kids, x);
    }
  }

  ghost predicate Agree(pool: seq<Node>, pool': seq<Node>, xs: set<nat>) {
    |pool| == |pool'| && forall x :: x in xs && x < |pool| ==> pool[x] == pool'[x]
  }

  /** A stored tree depends only on its own nodes. */
  lemma {:induction false} StoresFrame(pool: seq<Node>, pool': seq<Node>, t: Tree)
    requires Stores(pool, t) && Agree(pool, pool', Ids(t))
    ensures Stores(pool', t)
    decreases t
  {
    forall i | 0 <= i < |t.kids| ensures Stores(pool', t.kids[i]) {
      KidsInside(t, i);
      StoresFrame(pool, pool', t.kids[i]);
    }
  }

  // ----- node by node -----

  /** r is the upper half of a full node. */
  ghost predicate IsUpper(r: Node, full: Node) {
    && WellSized(r) && WellSized(full) && r.nkeys == 1 && r.leaf == full.leaf && r.keys[0] == full.keys[2]
    && (!full.leaf ==> r.children[0] == full.children[2] && r.children[1] == full.children[3])
  }

  /** q is n with a key put in at i and a child behind it. */
  ghost predicate IsWidened(q: Node, n: Node, i: nat, key: int, child: int) {
    && WellSized(q) && WellSized(n) && i <= n.nkeys && q.nkeys == n.nkeys + 1 && q.leaf == n.leaf
    && q.keys[i] == key && q.children[i + 1] == child
    && (forall k :: 0 <= k < i ==> q.keys[k] == n.keys[k])
    && (forall k :: i < k <= n.nkeys ==> q.keys[k] == n.keys[k - 1])
    && (forall k :: 0 <= k <= i ==> q.children[k] == n.children[k])
    && (forall k :: i + 1 < k <= n.nkeys + 1 ==> q.children[k] == n.children[k - 1])
  }

  /** The copying loops of split_child. */
  method UpperHalf(full: Node) returns (right: Node)
    requires WellSized(full) && full.nkeys == MAX_KEYS
    ensures IsUpper(right, full)
  {
    var mid := ORDER / 2 - 1;
    var nkeys := full.nkeys - mid - 1;
    var keys, children := [0, 0, 0, 0], [0, 0, 0, 0, 0];
    for j := 0 to nkeys
      invariant |keys| == ORDER && forall k :: 0 <= k < j ==> keys[k] == full.keys[mid + 1 + k]
    {
      keys := keys[j := full.keys[mid + 1 + j]];
    }
    if !full.leaf {
      for j := 0 to nkeys + 1
        invariant |children| == ORDER + 1 && forall k :: 0 <= k < j ==> children[k] == full.children[mid + 1 + k]
      {
        children := children[j := full.children[mid + 1 + j]];
      }
    }
    right := Node(keys, children, nkeys, full.leaf);
  }

  /** The shifting loop of split_child. */
  method Widen(n: Node, i: nat, key: int, child: int) returns (q: Node)
    requires WellSized(n) && i <= n.nkeys < MAX_KEYS
    ensures IsWidened(q, n, i, key, child)
  {
    var keys, children := n.keys, n.children;
    var j := n.nkeys;
    while j > i
      invariant i <= j <= n.nkeys && |keys| == ORDER && |children| == ORDER + 1
      invariant forall k :: 0 <= k < j ==> keys[k] == n.keys[k]
      invariant forall k :: j < k <= n.nkeys ==> keys[k] == n.keys[k - 1]
      invariant forall k :: 0 <= k <= j ==> children[k] == n.children[k]
      invariant forall k :: j + 1 < k <= n.nkeys + 1 ==> children[k] == n.children[k - 1]
    {
      children := children[j + 1 := children[j]];
      keys := keys[j := keys[j - 1]];
      j := j - 1;
    }
    q := Node(keys[i := key], children[i + 1 := child], n.nkeys + 1, n.leaf);
  }

  /** A key belongs at s among the first m keys. */
  ghost predicate IsSlot(keys: seq<int>, m: nat, key: int, s: nat) {
    && s <= m <= |keys| && (s > 0 ==> keys[s - 1] <= key)
    && forall k :: s <= k < m ==> key < keys[k]
  }

  lemma SlotIs(keys: seq<int>, m: nat, key: int)
    requires m <= |keys|
    ensures IsSlot(keys, m, key, Slot(keys[..m], key))
  {
    var s := Slot(keys[..m], key);
    forall k | s <= k < m ensures key < keys[k] {
      assert keys[..m][k] == keys[k];
    }
  }

  /** The insertion loop of a leaf. */
  method PutKey(n: Node, key: int, ghost s: nat) returns (q: Node)
    requires WellSized(n) && n.nkeys < MAX_KEYS && IsSlot(n.keys, n.nkeys, key, s)
    ensures WellSized(q) && q.nkeys == n.nkeys + 1 && q.leaf == n.leaf
    ensures IsPut(q.keys, n.keys, s, n.nkeys, key)
  {
    var keys := n.keys;
    var i := n.nkeys - 1;
    while i >= 0 && key < n.keys[i]
      invariant s - 1 <= i < n.nkeys && |keys| == ORDER
      invariant forall k :: 0 <= k <= i ==> keys[k] == n.keys[k]
      invariant forall k :: i + 1 < k <= n.nkeys ==> keys[k] == n.keys[k - 1]
    {
      keys := keys[i + 1 := keys[i]];
      i := i - 1;
    }
    q := Node(keys[i + 1 := key], n.children, n.nkeys + 1, n.leaf);
  }

  /** The first m keys of a, with one put in at i, are the first m + 1 of b. */
  ghost predicate IsPut(b: seq<int>, a: seq<int>, i: nat, m: nat, key: int) {
    && i <= m < |b| && m <= |a| && b[i] == key
    && (forall k :: 0 <= k < i ==> b[k] == a[k])
    && forall k :: i < k <= m ==> b[k] == a[k - 1]
  }

  lemma PutIn(b: seq<int>, a: seq<int>, i: nat, m: nat, key: int)
    requires IsPut(b, a, i, m, key)
    ensures b[..m + 1] == a[..i] + [key] + a[i..m]
  {
  }

  // ----- splitting a stored child -----

  /** The three nodes that split_child writes. */
  ghost predicate SplitWritten(pool: seq<Node>, pool': seq<Node>, parent: nat, full: nat, right: nat, i: nat) {
    && |pool| == |pool'| && parent < |pool| && full < |pool| && right < |pool|
    && parent != full && full != right && parent != right
    && WellSized(pool[full]) && pool[full].nkeys == MAX_KEYS && i < |pool[parent].children|
    && pool'[full] == pool[full].(nkeys := 1)
    && IsUpper(pool'[right], pool[full])
    && IsWidened(pool'[parent], pool[parent], i, pool[full].keys[1], right)
    && forall x :: 0 <= x < |pool| && x != parent && x != full && x != right ==> pool'[x] == pool[x]
  }

  /** A subtree below the node `top` is still stored when only that node changed. */
  lemma KidKept(pool: seq<Node>, pool': seq<Node>, kid: Tree, ids: set<nat>, top: nat)
    requires Stores(pool, kid) && |pool| == |pool'| && top !in Ids(kid) && Ids(kid) <= ids
    requires forall x :: x in ids && x < |pool| && x != top ==> pool'[x] == pool[x]
    ensures Stores(pool', kid)
  {
    StoresFrame(pool, pool', kid);
  }

  lemma OneKey(keys: seq<int>, all: seq<int>, n: nat, i: nat)
    requires n <= |keys| && keys[..n] == all && i < n
    ensures keys[i] == all[i]
  {
    assert keys[..n][i] == keys[i];
  }

  lemma StoresLeft(pool: seq<Node>, pool': seq<Node>, k: Tree)
    requires Stores(pool, k) && Apart(k) && |k.keys| == MAX_KEYS
    requires |pool| == |pool'| && pool'[k.id] == pool[k.id].(nkeys := 1)
    requires forall x :: x in Ids(k) && x < |pool| && x != k.id ==> pool'[x] == pool[x]
    ensures Stores(pool', LeftHalf(k))
  {
    OneKey(pool[k.id].keys, k.keys, 3, 0);
    var l := LeftHalf(k);
    assert pool'[k.id].keys[..1] == l.keys;
    forall i | 0 <= i < |l.kids| ensures pool'[k.id].children[i] == l.kids[i].id && Stores(pool', l.kids[i]) {
      KidsStored(pool, k, i);
      KidsInside(k, i);
      KidKept(pool, pool', k.kids[i], Ids(k), k.id);
    }
  }

  lemma RightKid(pool: seq<Node>, pool': seq<Node>, k: Tree, right: nat, i: nat)
    requires Stores(pool, k) && Apart(k) && i + 2 < |k.kids| && i < 2
    requires |pool| == |pool'| && right < |pool| && IsUpper(pool'[right], pool[k.id])
    requires forall x :: x in Ids(k) && x < |pool| && x != k.id ==> pool'[x] == pool[x]
    ensures pool'[right].children[i] == k.kids[i + 2].id && Stores(pool', k.kids[i + 2])
  {
    KidsStored(pool, k, i + 2);
    KidsInside(k, i + 2);
    KidKept(pool, pool', k.kids[i + 2], Ids(k), k.id);
  }

  lemma StoresRight(pool: seq<Node>, pool': seq<Node>, k: Tree, right: nat)
    requires Stores(pool, k) && Apart(k) && |k.keys| == MAX_KEYS
    requires |pool| == |pool'| && right < |pool| && IsUpper(pool'[right], pool[k.id])
    requires forall x :: x in Ids(k) && x < |pool| && x != k.id ==> pool'[x] == pool[x]
    ensures Stores(pool', RightHalf(k, right))
  {
    OneKey(pool[k.id].keys, k.keys, 3, 2);
    if k.kids != [] {
      RightKid(pool, pool', k, right, 0);
      RightKid(pool, pool', k, right, 1);
    }
    StoresOneKey(pool', RightHalf(k, right));
  }

  lemma StoresOneKey(pool: seq<Node>, r: Tree)
    requires r.id < |pool| && WellSized(pool[r.id]) && pool[r.id].nkeys == 1 == |r.keys| && pool[r.id].keys[0] == r.keys[0]
    requires pool[r.id].leaf == (r.kids == []) && (r.kids == [] || |r.kids| == 2)
    requires r.kids != [] ==> pool[r.id].children[0] == r.kids[0].id && Stores(pool, r.kids[0])
    requires r.kids != [] ==> pool[r.id].children[1] == r.kids[1].id && Stores(pool, r.kids[1])
    ensures Stores(pool, r)
  {
    assert pool[r.id].keys[..1] == r.keys;
  }

  lemma KidApart(p: Tree, i: nat, j: nat)
    requires Apart(p) && i < |p.kids| && j < |p.kids| && i != j
    ensures Ids(p.kids[i]) !! Ids(p.kids[j])
  {
    if i < j {
      assert Ids(p.kids[i]) !! Ids(p.kids[j]);
    } else {
      assert Ids(p.kids[j]) !! Ids(p.kids[i]);
    }
  }

  /** Kids other than the split one are still stored. */
  lemma OtherKidStored(pool: seq<Node>, pool': seq<Node>, p: Tree, i: nat, right: nat, c: nat)
    requires Stores(pool, p) && Apart(p) && i < |p.kids| && c < |p.kids| && c != i && right !in Ids(p)
    requires SplitWritten(pool, pool', p.id, p.kids[i].id, right, i)
    ensures Stores(pool', p.kids[c])
  {
    KidsInside(p, c);
    KidApart(p, i, c);
    assert p.kids[i].id in Ids(p.kids[i]);
    StoresFrame(pool, pool', p.kids[c]);
  }

  lemma SplitKidStored(pool: seq<Node>, pool': seq<Node>, p: Tree, i: nat, right: nat)
    requires Stores(pool, p) && Apart(p) && i < |p.kids| && |p.kids[i].keys| == MAX_KEYS && right !in Ids(p)
    requires SplitWritten(pool, pool', p.id, p.kids[i].id, right, i)
    ensures Stores(pool', LeftHalf(p.kids[i])) && Stores(pool', RightHalf(p.kids[i], right))
  {
    KidsInside(p, i);
    StoresLeft(pool, pool', p.kids[i]);
    StoresRight(pool, pool', p.kids[i], right);
  }

  /** The widened parent spells the keys of the split tree. */
  lemma SplitKeys(pool: seq<Node>, pool': seq<Node>, p: Tree, i: nat, right: nat)
    requires Stores(pool, p) && i < |p.kids| && |p.kids[i].keys| == MAX_KEYS && |p.keys| < MAX_KEYS
    requires SplitWritten(pool, pool', p.id, p.kids[i].id, right, i)
    ensures pool'[p.id].keys[..|p.keys| + 1] == SplitKid(p, i, right).keys
  {
    var k := p.kids[i];
    KidsStored(pool, p, i);
    assert pool[k.id].keys[1] == pool[k.id].keys[..3][1] == k.keys[1];
    var a := pool[p.id].keys;
    PutIn(pool'[p.id].keys, a, i, |p.keys|, k.keys[1]);
    assert a[..|p.keys|] == p.keys;
    assert a[..i] == p.keys[..i] && a[i..|p.keys|] == p.keys[i..];
  }

  lemma SplitKidsAre(p: Tree, i: nat, right: nat, c: nat)
    requires i < |p.kids| && i <= |p.keys| && |p.kids[i].keys| == MAX_KEYS && c < |p.kids| + 1
    ensures SplitKid(p, i, right).kids[c]
         == if c < i then p.kids[c] else if c == i then LeftHalf(p.kids[i])
            else if c == i + 1 then RightHalf(p.kids[i], right) else p.kids[c - 1]
  {
  }

  lemma SplitKidAt(pool: seq<Node>, pool': seq<Node>, p: Tree, i: nat, right: nat, c: nat, k: Tree)
    requires Stores(pool, p) && Apart(p) && i < |p.kids| && |p.kids[i].keys| == MAX_KEYS && |p.keys| < MAX_KEYS
    requires right !in Ids(p) && SplitWritten(pool, pool', p.id, p.kids[i].id, right, i)
    requires c < |p.kids| + 1
    requires k == if c < i then p.kids[c] else if c == i then LeftHalf(p.kids[i])
                  else if c == i + 1 then RightHalf(p.kids[i], right) else p.kids[c - 1]
    ensures Stores(pool', k)
  {
    if c < i {
      OtherKidStored(pool, pool', p, i, right, c);
    } else if c > i + 1 {
      OtherKidStored(pool, pool', p, i, right, c - 1);
    } else {
      SplitKidStored(pool, pool', p, i, right);
    }
  }

  lemma SplitLink(pool: seq<Node>, pool': seq<Node>, p: Tree, i: nat, right: nat, c: nat)
    requires Stores(pool, p) && i < |p.kids| && |p.kids[i].keys| == MAX_KEYS && |p.keys| < MAX_KEYS
    requires SplitWritten(pool, pool', p.id, p.kids[i].id, right, i) && c < |p.kids| + 1
    ensures pool'[p.id].children[c] == SplitKid(p, i, right).kids[c].id
  {
    SplitKidsAre(p, i, right, c);
    KidsStored(pool, p, if c <= i then c else c - 1);
  }

  lemma StoresSplit(pool: seq<Node>, pool': seq<Node>, p: Tree, i: nat, right: nat)
    requires Stores(pool, p) && Apart(p) && i < |p.kids| && |p.kids[i].keys| == MAX_KEYS && |p.keys| < MAX_KEYS
    requires right !in Ids(p) && SplitWritten(pool, pool', p.id, p.kids[i].id, right, i)
    ensures Stores(pool', SplitKid(p, i, right))
  {
    var q := SplitKid(p, i, right);
    SplitKeys(pool, pool', p, i, right);
    forall c | 0 <= c < |q.kids| ensures pool'[p.id].children[c] == q.kids[c].id && Stores(pool', q.kids[c]) {
      SplitLink(pool, pool', p, i, right, c);
      SplitKidsAre(p, i, right, c);
      SplitKidAt(pool, pool', p, i, right, c, q.kids[c]);
    }
  }

  // ----- no sharing after a split -----

  lemma HalvesApart(k: Tree, right: nat)
    requires Apart(k) && |k.keys| == MAX_KEYS && (k.kids == [] || |k.kids| == MAX_KEYS + 1) && right !in Ids(k)
    ensures Apart(LeftHalf(k)) && Apart(RightHalf(k, right)) && Ids(LeftHalf(k)) !! Ids(RightHalf(k, right))
    ensures Ids(LeftHalf(k)) + Ids(RightHalf(k, right)) == Ids(k) + {right}
  {
    if k.kids != [] {
      FourKids(k.kids);
      TwoKids(k.kids[..2]);
      TwoKids(k.kids[2..]);
      KidsInside(k, 2);
      KidsInside(k, 3);
    }
  }

  lemma TwoKids(kids: seq<Tree>)
    requires |kids| == 2
    ensures KidIds(kids) == Ids(kids[0]) + Ids(kids[1])
  {
    assert KidIds(kids[1..]) == Ids(kids[1]) + KidIds(kids[1..][1..]);
  }

  lemma FourKids(kids: seq<Tree>)
    requires |kids| == 4
    ensures KidIds(kids) == Ids(kids[0]) + Ids(kids[1]) + Ids(kids[2]) + Ids(kids[3])
  {
    var t := kids[1..];
    assert t[1..] == kids[2..];
    TwoKids(kids[2..]);
    assert KidIds(t) == Ids(t[0]) + KidIds(t[1..]);
  }

  lemma KidIdsAround(a: seq<Tree>, w: seq<Tree>, b: seq<Tree>)
    ensures KidIds(a + w + b) == KidIds(a) + KidIds(w) + KidIds(b)
  {
    KidIdsConcat(a + w, b);
    KidIdsConcat(a, w);
  }

  lemma OneKid(k: Tree)
    ensures KidIds([k]) == Ids(k)
  {
    assert [k][1..] == [];
  }

  lemma {:induction false} KidIdsConcat(a: seq<Tree>, b: seq<Tree>)
    ensures KidIds(a + b) == KidIds(a) + KidIds(b)
  {
    if a == [] {
      assert a + b == b;
    } else {
      KidIdsConcat(a[1..], b);
      assert (a + b)[1..] == a[1..] + b;
    }
  }

  lemma IdsSplit(p: Tree, i: nat, right: nat)
    requires Apart(p) && i < |p.kids| && i <= |p.keys| && |p.kids[i].keys| == MAX_KEYS && right !in Ids(p)
    requires p.kids[i].kids == [] || |p.kids[i].kids| == MAX_KEYS + 1
    ensures Ids(SplitKid(p, i, right)) == Ids(p) + {right}
  {
    var k := p.kids[i];
    var a, b, w := p.kids[..i], p.kids[i + 1..], [LeftHalf(k), RightHalf(k, right)];
    KidsInside(p, i);
    HalvesApart(k, right);
    assert p.kids == a + [k] + b;
    KidIdsAround(a, [k], b);
    OneKid(k);
    KidIdsAround(a, w, b);
    TwoKids(w);
    assert w[0] == LeftHalf(k) && w[1] == RightHalf(k, right);
    assert SplitKid(p, i, right).kids == a + w + b;
  }

  /** Which kid of p the kid c of the split tree comes from. */
  function Origin(i: nat, c: nat): nat {
    if c <= i then c else c - 1
  }

  lemma SplitKidIds(p: Tree, i: nat, right: nat, c: nat)
    requires Apart(p) && i < |p.kids| && i <= |p.keys| && |p.kids[i].keys| == MAX_KEYS && right !in Ids(p)
    requires p.kids[i].kids == [] || |p.kids[i].kids| == MAX_KEYS + 1
    requires c < |p.kids| + 1
    ensures var q := SplitKid(p, i, right);
      && Ids(q.kids[c]) <= Ids(p.kids[Origin(i, c)]) + (if c == i + 1 then {right} else {})
      && Apart(q.kids[c]) && p.id !in Ids(q.kids[c])
  {
    SplitKidsAre(p, i, right, c);
    if c == i || c == i + 1 {
      KidsInside(p, i);
      HalvesApart(p.kids[i], right);
      assert p.id in Ids(p);
    } else {
      assert Apart(p.kids[Origin(i, c)]);
    }
  }

  lemma ApartSplit(p: Tree, i: nat, right: nat)
    requires Apart(p) && i < |p.kids| && i <= |p.keys| && |p.kids[i].keys| == MAX_KEYS && right !in Ids(p)
    requires p.kids[i].kids == [] || |p.kids[i].kids| == MAX_KEYS + 1
    ensures Apart(SplitKid(p, i, right))
  {
    var q := SplitKid(p, i, right);
    forall c | 0 <= c < |q.kids| ensures p.id !in Ids(q.kids[c]) && Apart(q.kids[c]) {
      SplitKidIds(p, i, right, c);
    }
    forall c, d | 0 <= c < d < |q.kids| ensures Ids(q.kids[c]) !! Ids(q.kids[d]) {
      SplitPairApart(p, i, right, c, d);
    }
  }

  lemma SplitPairApart(p: Tree, i: nat, right: nat, c: nat, d: nat)
    requires Apart(p) && i < |p.kids| && i <= |p.keys| && |p.kids[i].keys| == MAX_KEYS && right !in Ids(p)
    requires p.kids[i].kids == [] || |p.kids[i].kids| == MAX_KEYS + 1
    requires c < d < |p.kids| + 1
    ensures Ids(SplitKid(p, i, right).kids[c]) !! Ids(SplitKid(p, i, right).kids[d])
  {
    var o, o' := Origin(i, c), Origin(i, d);
    if o == o' {
      KidsInside(p, i);
      HalvesApart(p.kids[i], right);
    } else {
      SplitKidIds(p, i, right, c);
      SplitKidIds(p, i, right, d);
      KidApart(p, o, o');
      KidsInside(p, o);
      KidsInside(p, o');
    }
  }

  // ----- replacing one kid -----

  ghost predicate IdsBelow(t: Tree, n: nat) {
    forall x :: x in Ids(t) ==> x < n
  }

  /** The tree is stored, shares nothing, and lies in the used part of the pool. */
  ghost predicate Owned(pool: seq<Node>, next: nat, t: Tree) {
    Stores(pool, t) && Apart(t) && IdsBelow(t, next)
  }

  /** Nothing below `next` changed outside t. */
  ghost predicate Untouched(pool: seq<Node>, pool': seq<Node>, next: nat, t: Tree) {
    |pool| == |pool'| && forall x :: 0 <= x < |pool| && x < next && x !in Ids(t) ==> pool'[x] == pool[x]
  }

  lemma StoresReplace(pool: seq<Node>, pool': seq<Node>, next: nat, p: Tree, i: nat, k: Tree)
    requires Owned(pool, next, p) && i < |p.kids| && Untouched(pool, pool', next, p.kids[i])
    requires Stores(pool', k) && k.id == p.kids[i].id
    ensures Stores(pool', WithKid(p, i, k))
  {
    assert p.id in Ids(p) && p.id !in Ids(p.kids[i]);
    var q := WithKid(p, i, k);
    forall c | 0 <= c < |q.kids| ensures pool'[p.id].children[c] == q.kids[c].id && Stores(pool', q.kids[c]) {
      if c != i {
        KidsInside(p, c);
        KidApart(p, i, c);
        StoresFrame(pool, pool', p.kids[c]);
      }
    }
  }

  lemma IdsReplace(p: Tree, i: nat, k: Tree)
    requires i < |p.kids|
    ensures Ids(WithKid(p, i, k)) <= Ids(p) + Ids(k)
  {
    var a, b := p.kids[..i], p.kids[i + 1..];
    assert p.kids == a + [p.kids[i]] + b && p.kids[i := k] == a + [k] + b;
    KidIdsAround(a, [p.kids[i]], b);
    KidIdsAround(a, [k], b);
    OneKid(k);
  }

  lemma ApartReplace(p: Tree, i: nat, k: Tree, next: nat)
    requires Apart(p) && IdsBelow(p, next) && i < |p.kids| && Apart(k)
    requires forall x :: x in Ids(k) ==> x in Ids(p.kids[i]) || x >= next
    ensures Apart(WithKid(p, i, k))
  {
    var q := WithKid(p, i, k);
    assert p.id in Ids(p);
    forall c, d | 0 <= c < d < |q.kids| ensures Ids(q.kids[c]) !! Ids(q.kids[d]) {
      KidApart(p, c, d);
      KidsInside(p, c);
      KidsInside(p, d);
    }
  }

  /** What insertion does to the indices: new ones come from the free part, none is shared. */
  ghost predicate FreshOnly(t: Tree, next: nat, t': Tree, next': nat, h: nat) {
    && t'.id == t.id && Apart(t') && next <= next' <= next + h
    && forall x :: x in Ids(t') ==> x in Ids(t) || next <= x < next'
  }

  lemma PreparedIds(t: Tree, key: int, next: nat, h: nat)
    requires Filled(t) && Uniform(t, h) && |t.keys| < MAX_KEYS && t.kids != [] && Apart(t) && IdsBelow(t, next)
    ensures var (p, i, n) := Prepared(t, key, next);
      p.id == t.id && Apart(p) && IdsBelow(p, n) && Ids(p) <= Ids(t) + {next} && next <= n <= next + 1
      && (n == next ==> p == t)
  {
    var i := Slot(t.keys, key);
    var k := t.kids[i];
    assert k in t.kids;
    if |k.keys| == MAX_KEYS {
      ApartSplit(t, i, next);
      IdsSplit(t, i, next);
    }
  }

  lemma {:induction false} InsertIds(t: Tree, key: int, next: nat, h: nat)
    requires Filled(t) && Uniform(t, h) && |t.keys| < MAX_KEYS && Apart(t) && IdsBelow(t, next)
    ensures FreshOnly(t, next, Insert(t, key, next, h).0, Insert(t, key, next, h).1, h)
    decreases h
  {
    if t.kids == [] {
      LeafFresh(t, Insert(t, key, next, h).0, next, h);
    } else {
      PreparedShape(t, key, next, h);
      PreparedIds(t, key, next, h);
      var (p, i, n) := Prepared(t, key, next);
      var (k, n') := Insert(p.kids[i], key, n, h - 1);
      InsertUnfolds(t, key, next, h, p, i, n, k, n');
      assert FreshOnly(p.kids[i], n, k, n', h - 1) by {
        KidOwned(p, i, n);
        InsertIds(p.kids[i], key, n, h - 1);
      }
      FreshAbove(t, next, p, i, n, k, n', h);
    }
  }

  lemma FreshOwned(pool: seq<Node>, t: Tree, next: nat, t': Tree, next': nat, h: nat)
    requires IdsBelow(t, next) && FreshOnly(t, next, t', next', h) && Stores(pool, t')
    ensures Owned(pool, next', t')
  {
  }

  lemma LeafFresh(t: Tree, t': Tree, next: nat, h: nat)
    requires t.kids == [] && t'.kids == [] && t'.id == t.id
    ensures FreshOnly(t, next, t', next, h)
  {
  }

  lemma KidOwned(p: Tree, i: nat, n: nat)
    requires Apart(p) && IdsBelow(p, n) && i < |p.kids|
    ensures Apart(p.kids[i]) && IdsBelow(p.kids[i], n)
  {
    KidsInside(p, i);
  }

  lemma FreshAbove(t: Tree, next: nat, p: Tree, i: nat, n: nat, k: Tree, n': nat, h: nat)
    requires h > 0 && p.id == t.id && Apart(p) && IdsBelow(p, n) && Ids(p) <= Ids(t) + {next} && next <= n <= next + 1
    requires n == next ==> p == t
    requires i < |p.kids| && FreshOnly(p.kids[i], n, k, n', h - 1)
    ensures FreshOnly(t, next, WithKid(p, i, k), n', h)
  {
    KidsInside(p, i);
    ApartReplace(p, i, k, n);
    IdsReplace(p, i, k);
  }

  // ----- the program -----

  lemma {:induction false} KidsStored(pool: seq<Node>, t: Tree, i: nat)
    requires Stores(pool, t) && i < |t.kids|
    ensures Stores(pool, t.kids[i]) && pool[t.id].children[i] == t.kids[i].id
  {
  }

  lemma StoredKey(pool: seq<Node>, t: Tree, i: nat)
    requires Stores(pool, t) && i < |t.keys|
    ensures pool[t.id].keys[i] == t.keys[i]
  {
    assert pool[t.id].keys[..|t.keys|][i] == pool[t.id].keys[i];
  }

  class Store {
    const pool: array<Node>
    var next: nat
    var root: int

    ghost var tree: Tree
    ghost var height: nat

    ghost predicate Valid()
      reads this
    {
      pool.Length == POOL && next <= POOL
    }

    /** The stored tree is a sorted B-tree. */
    ghost predicate Holds()
      reads this, pool
    {
      Valid() && next == (if root < 0 then 0 else Nodes(tree)) &&
      (root >= 0 ==>
        && root == tree.id && Owned(pool[..], next, tree)
        && Filled(tree) && Uniform(tree, height) && Sorted(InOrder(tree)))
    }

    ghost function Keys(): seq<int>
      reads this
    {
      if root < 0 then [] else InOrder(tree)
    }

    /** The pool has the nodes that inserting this key takes. */
    ghost predicate Room(key: int)
      requires Holds()
      reads this, pool
    {
      if root < 0 then next < POOL else InsertRoot(tree, key, next, height).1 <= POOL
    }

    /** There is room as long as there are fewer keys than nodes in the pool. */
    lemma KeysGiveRoom(key: int)
      requires Holds() && |Keys()| < POOL
      ensures Room(key)
    {
      if root >= 0 {
        RoomForKey(tree, key, height, POOL);
      }
    }

    constructor ()
      ensures Holds() && fresh(pool) && Keys() == []
    {
      pool := new Node[POOL](_ => Node([0, 0, 0, 0], [0, 0, 0, 0, 0], 0, false));
      next := 0;
      root := -1;
      height := 0;
    }

    /** split_child */
    method SplitChild(parent: nat, i: nat, ghost p: Tree)
      requires Valid() && next < POOL && Owned(pool[..], next, p) && p.id == parent
      requires i < |p.kids| && |p.kids[i].keys| == MAX_KEYS && |p.keys| < MAX_KEYS
      modifies this`next, pool
      ensures Valid() && next == old(next) + 1
      ensures SplitWritten(old(pool[..]), pool[..], p.id, p.kids[i].id, old(next), i)
    {
      KidsStored(pool[..], p, i);
      assert p.id in Ids(p) && p.kids[i].id in Ids(p.kids[i]);
      KidsInside(p, i);
      var full := pool[parent].children[i];
      var right := next;
      next := next + 1;
      var upper := UpperHalf(pool[full]);
      var wide := Widen(pool[parent], i, pool[full].keys[ORDER / 2 - 1], right);
      pool[right] := upper;
      pool[full] := pool[full].(nkeys := ORDER / 2 - 1);
      pool[parent] := wide;
    }

    /** The child a key goes to, split first if it is full. */
    method PrepareChild(node: nat, key: int, ghost t: Tree, ghost h: nat) returns (i: nat)
      requires Valid() && Owned(pool[..], next, t) && t.id == node
      requires Filled(t) && Uniform(t, h) && |t.keys| < MAX_KEYS && t.kids != [] && Prepared(t, key, next).2 <= POOL
      modifies this`next, pool
      ensures Valid() && (Prepared(t, key, old(next)).1, Prepared(t, key, old(next)).2) == (i, next)
      ensures Owned(pool[..], next, Prepared(t, key, old(next)).0)
      ensures Untouched(old(pool[..]), pool[..], old(next), t)
    {
      i := FindSlot(pool[node], key);
      KidsStored(pool[..], t, i);
      if pool[pool[node].children[i]].nkeys == MAX_KEYS {
        ghost var before, free := pool[..], next;
        SplitChild(node, i, t);
        SplitOwned(before, pool[..], free, t, i);
        StoredKey(pool[..], SplitKid(t, i, free), i);
        if key > pool[node].keys[i] {
          i := i + 1;
        }
      }
    }

    /** insert_nonfull on a leaf */
    method InsertLeaf(node: nat, key: int, ghost t: Tree, ghost h: nat)
      requires Valid() && Owned(pool[..], next, t) && t.id == node
      requires Filled(t) && Uniform(t, h) && |t.keys| < MAX_KEYS && t.kids == []
      modifies pool
      ensures Stores(pool[..], Insert(t, key, next, h).0) && Untouched(old(pool[..]), pool[..], next, t)
    {
      ghost var before := pool[..];
      SlotIs(pool[node].keys, pool[node].nkeys, key);
      var q := PutKey(pool[node], key, Slot(t.keys, key));
      pool[node] := q;
      LeafStored(before, pool[..], t, key, next, h);
    }

    /** insert_nonfull */
    method InsertNonfull(node: nat, key: int, ghost t: Tree, ghost h: nat)
      requires Valid() && Owned(pool[..], next, t) && t.id == node
      requires Filled(t) && Uniform(t, h) && |t.keys| < MAX_KEYS && Insert(t, key, next, h).1 <= POOL
      modifies this`next, pool
      ensures Valid() && next == Insert(t, key, old(next), h).1
      ensures Owned(pool[..], next, Insert(t, key, old(next), h).0)
      ensures Untouched(old(pool[..]), pool[..], old(next), t)
      decreases h, 1
    {
      ghost var free := next;
      InsertIds(t, key, free, h);
      if pool[node].leaf {
        InsertLeaf(node, key, t, h);
      } else {
        InsertInner(node, key, t, h);
      }
      FreshOwned(pool[..], t, free, Insert(t, key, free, h).0, next, h);
    }

    /** insert_nonfull on an inner node */
    method InsertInner(node: nat, key: int, ghost t: Tree, ghost h: nat)
      requires Valid() && Owned(pool[..], next, t) && t.id == node
      requires Filled(t) && Uniform(t, h) && |t.keys| < MAX_KEYS && Insert(t, key, next, h).1 <= POOL && t.kids != []
      modifies this`next, pool
      ensures Valid() && next == Insert(t, key, old(next), h).1 && Stores(pool[..], Insert(t, key, old(next), h).0)
      ensures Untouched(old(pool[..]), pool[..], old(next), t)
      decreases h, 0
    {
      ghost var before, free := pool[..], next;
      PreparedShape(t, key, free, h);
      ghost var p := PreparedFits(t, key, free, h, POOL);
      var i := PrepareChild(node, key, t, h);
      ghost var middle, n := pool[..], next;
      KidsStored(middle, p, i);
      KidOwned(p, i, n);
      InsertNonfull(pool[node].children[i], key, p.kids[i], h - 1);
      InsertStored(before, middle, pool[..], t, key, free, h, p, i, n);
    }

    /** A full root moves under a new one and is split. */
    method GrowRoot(ghost t: Tree)
      requires Valid() && next + 2 <= POOL && Owned(pool[..], next, t) && root == t.id && |t.keys| == MAX_KEYS
      modifies this`next, this`root, pool
      ensures Valid() && next == old(next) + 2 && root == old(next)
      ensures Owned(pool[..], next, SplitKid(NewRoot(t, old(next)), 0, old(next) + 1))
    {
      var newRoot := next;
      RaiseRoot(t);
      ghost var middle := pool[..];
      SplitChild(newRoot, 0, NewRoot(t, newRoot));
      SplitOwned(middle, pool[..], newRoot + 1, NewRoot(t, newRoot), 0);
      root := newRoot;
    }

    /** The same: inserting into the grown tree r is inserting into t. */
    method Grow(ghost key: int, ghost t: Tree, ghost h: nat) returns (ghost r: Tree)
      requires Valid() && next + 2 <= POOL && Owned(pool[..], next, t) && root == t.id
      requires Filled(t) && Uniform(t, h) && |t.keys| == MAX_KEYS
      modifies this`next, this`root, pool
      ensures Valid() && next == old(next) + 2 && root == r.id && Owned(pool[..], next, r)
      ensures Filled(r) && Uniform(r, h + 1) && |r.keys| < MAX_KEYS
      ensures InsertRoot(t, key, old(next), h) == Insert(r, key, next, h + 1)
    {
      ghost var free := next;
      GrowRoot(t);
      r := GrownRoot(t, key, free, next, h);
    }

    /** The new root, with the old one as its only child. */
    method RaiseRoot(ghost t: Tree)
      requires Valid() && next < POOL && Owned(pool[..], next, t) && root == t.id
      modifies this`next, pool
      ensures Valid() && next == old(next) + 1 && Owned(pool[..], next, NewRoot(t, old(next)))
    {
      ghost var before := pool[..];
      pool[next] := Node([0, 0, 0, 0], [root, 0, 0, 0, 0], 0, false);
      NewRootOwned(before, pool[..], next, t);
      next := next + 1;
    }

    /** btree_insert on a tree: as InsertRoot does to the value. */
    method InsertInto(key: int, ghost t: Tree, ghost h: nat) returns (ghost t': Tree)
      requires Valid() && Owned(pool[..], next, t) && root == t.id && Filled(t) && Uniform(t, h)
      requires InsertRoot(t, key, next, h).1 <= POOL
      modifies this`next, this`root, pool
      ensures Valid() && Owned(pool[..], next, t') && root == t'.id
      ensures (t', next) == InsertRoot(t, key, old(next), h)
    {
      ghost var free, r := next, t;
      if pool[root].nkeys == MAX_KEYS {
        GrowthFits(t, key, next, h, POOL);
        r := Grow(key, t, h);
        t' := InsertAt(key, r, h + 1);
      } else {
        KeptRoot(t, key, free, h);
        t' := InsertAt(key, t, h);
      }
    }

    /** Insertion from a root that has room. */
    method InsertAt(key: int, ghost t: Tree, ghost h: nat) returns (ghost t': Tree)
      requires Valid() && Owned(pool[..], next, t) && root == t.id
      requires Filled(t) && Uniform(t, h) && |t.keys| < MAX_KEYS && Insert(t, key, next, h).1 <= POOL
      modifies this`next, pool
      ensures Valid() && Owned(pool[..], next, t') && root == t'.id && (t', next) == Insert(t, key, old(next), h)
    {
      t' := Insert(t, key, next, h).0;
      InsertIdKept(t, key, next, h);
      InsertNonfull(root, key, t, h);
    }

    /** btree_insert on the empty tree. */
    method InsertFirst(key: int)
      requires Holds() && root < 0
      modifies this, pool
      ensures Holds() && root >= 0 && height == 0 && Keys() == [key]
    {
      root := next;
      next := next + 1;
      pool[root] := Node([key, 0, 0, 0], [0, 0, 0, 0, 0], 1, true);
      tree, height := Tree(root, [key], []), 0;
      FirstOwned(pool[..], root, key);
    }

    /** btree_insert: the invariants hold again, with exactly one key more. */
    method InsertKey(key: int)
      requires Holds() && Room(key)
      modifies this, pool
      ensures Holds() && root >= 0 && height <= old(height) + 1
      ensures multiset(Keys()) == old(multiset(Keys())) + multiset{key}
    {
      if root < 0 {
        InsertFirst(key);
        assert multiset([key]) == multiset([]) + multiset{key};
      } else {
        InsertMore(key);
      }
    }

    /** Any run of insertions: as many keys fit as the pool has nodes. */
    method InsertKeys(keys: seq<int>)
      requires Holds() && |Keys()| + |keys| <= POOL
      modifies this, pool
      ensures Holds() && multiset(Keys()) == old(multiset(Keys())) + multiset(keys)
    {
      ghost var before := Keys();
      assert keys[..0] == [];
      for i := 0 to |keys|
        invariant Holds() && multiset(Keys()) == multiset(before) + multiset(keys[..i])
      {
        InsertNext(keys, i, before);
      }
      assert keys[..|keys|] == keys;
    }

    method InsertNext(keys: seq<int>, i: nat, ghost before: seq<int>)
      requires Holds() && i < |keys| && |before| + |keys| <= POOL
      requires multiset(Keys()) == multiset(before) + multiset(keys[..i])
      modifies this, pool
      ensures Holds() && multiset(Keys()) == multiset(before) + multiset(keys[..i + 1])
    {
      ghost var now := Keys();
      CountOf(now, before, keys[..i]);
      KeysGiveRoom(keys[i]);
      InsertKey(keys[i]);
      OneMoreKey(now, before, keys, i, Keys());
    }

    /** btree_insert on a tree. */
    method InsertMore(key: int)
      requires Holds() && Room(key) && root >= 0
      modifies this, pool
      ensures Holds() && root >= 0 && height <= old(height) + 1
      ensures multiset(Keys()) == old(multiset(Keys())) + multiset{key}
    {
      ghost var h' := InsertedTree(tree, key, next, height);
      ghost var t' := InsertInto(key, tree, height);
      tree, height := t', h';
    }

    /** search: a node that holds the key, or -1. */
    method SearchFrom(node: int, key: int, ghost t: Tree) returns (r: int)
      requires Valid() && Stores(pool[..], t) && t.id == node
      ensures r >= 0 <==> Found(t, key)
      ensures r >= 0 ==> r < POOL && WellSized(pool[r]) && key in pool[r].keys[..pool[r].nkeys]
      decreases t
    {
      var n := pool[node];
      var i := 0;
      assert t.keys == n.keys[..n.nkeys];
      while i < n.nkeys && key > n.keys[i]
        invariant 0 <= i <= CountLess(t.keys, key)
        decreases n.nkeys - i
      {
        CountLessStep(t.keys, key, i);
        i := i + 1;
      }
      CountLessStep(t.keys, key, i);
      if i < n.nkeys && key == n.keys[i] {
        assert t.keys[i] == key;
        return node;
      }
      if n.leaf {
        return -1;
      }
      KidsStored(pool[..], t, i);
      r := SearchFrom(n.children[i], key, t.kids[i]);
    }

    /** A key is found exactly when it has been inserted. */
    method Search(key: int) returns (r: int)
      requires Holds()
      ensures r >= 0 <==> key in Keys()
      ensures r >= 0 ==> r < POOL && WellSized(pool[r]) && key in pool[r].keys[..pool[r].nkeys]
    {
      if root < 0 {
        return -1;
      }
      FoundIffMember(tree, key);
      r := SearchFrom(root, key, tree);
    }

    /** inorder: appends the keys of a subtree to the buffer; the program does not test for its end. */
    method Traverse(node: int, buf: array<int>, count: nat, ghost t: Tree) returns (n': nat)
      requires Valid() && Stores(pool[..], t) && t.id == node && count + |InOrder(t)| <= buf.Length
      modifies buf
      ensures n' == count + |InOrder(t)| && buf[..n'] == old(buf[..count]) + InOrder(t)
      decreases t, 1
    {
      ghost var before := buf[..count];
      var n := pool[node];
      assert t.keys == n.keys[..n.nkeys];
      n' := count;
      var i := 0;
      while i < n.nkeys
        invariant 0 <= i <= n.nkeys && count <= n' <= buf.Length && buf[..n'] == before + Visited(t, i)
      {
        VisitedFits(t, i);
        if !n.leaf {
          n' := TraverseKid(node, i, buf, n', t);
        }
        assert n.keys[i] == t.keys[i];
        VisitedNext(t, i);
        Chain(before, Visited(t, i), Below(t, i), [t.keys[i]]);
        assert buf[..n'] == before + Visited(t, i) + Below(t, i);
        AppendKey(buf, n', n.keys[i]);
        n' := n' + 1;
        i := i + 1;
      }
      VisitedAll(t);
      Chain(before, Visited(t, i), Below(t, i), []);
      if !n.leaf {
        n' := TraverseKid(node, n.nkeys, buf, n', t);
      }
    }

    method TraverseKid(node: int, i: nat, buf: array<int>, count: nat, ghost t: Tree) returns (n': nat)
      requires Valid() && Stores(pool[..], t) && t.id == node && i < |t.kids|
      requires count + |InOrder(t.kids[i])| <= buf.Length
      modifies buf
      ensures n' == count + |InOrder(t.kids[i])| && buf[..n'] == old(buf[..count]) + InOrder(t.kids[i])
      decreases t, 0
    {
      KidsStored(pool[..], t, i);
      n' := Traverse(pool[node].children[i], buf, count, t.kids[i]);
    }

    /** The in-order keys of the whole tree, in a buffer of the program's size. */
    method InOrderKeys(buf: array<int>) returns (count: nat)
      requires Holds() && buf.Length == BUFFER && |Keys()| <= BUFFER
      modifies buf
      ensures count <= buf.Length && buf[..count] == Keys()
    {
      count := 0;
      if root >= 0 {
        count := Traverse(root, buf, 0, tree);
      }
    }
  }

  method AppendKey(buf: array<int>, at: nat, key: int)
    requires at < buf.Length
    modifies buf
    ensures buf[..at + 1] == old(buf[..at]) + [key]
  {
    buf[at] := key;
  }

  /** After split_child the split tree is stored and owned; nothing else below the free part moved. */
  lemma SplitOwned(pool: seq<Node>, pool': seq<Node>, next: nat, p: Tree, i: nat)
    requires Owned(pool, next, p) && i < |p.kids| && |p.kids[i].keys| == MAX_KEYS && |p.keys| < MAX_KEYS
    requires SplitWritten(pool, pool', p.id, p.kids[i].id, next, i)
    ensures Owned(pool', next + 1, SplitKid(p, i, next)) && Untouched(pool, pool', next, p)
  {
    KidsStored(pool, p, i);
    StoresSplit(pool, pool', p, i, next);
    ApartSplit(p, i, next);
    IdsSplit(p, i, next);
    SplitUntouched(pool, pool', next, p, i);
  }

  lemma SplitUntouched(pool: seq<Node>, pool': seq<Node>, next: nat, p: Tree, i: nat)
    requires i < |p.kids| && SplitWritten(pool, pool', p.id, p.kids[i].id, next, i)
    ensures Untouched(pool, pool', next, p)
  {
    assert p.id in Ids(p) && p.kids[i].id in Ids(p.kids[i]);
    KidsInside(p, i);
  }

  method FindSlot(n: Node, key: int) returns (i: nat)
    requires WellSized(n)
    ensures i == Slot(n.keys[..n.nkeys], key)
  {
    ghost var s := Slot(n.keys[..n.nkeys], key);
    SlotIs(n.keys, n.nkeys, key);
    var j := n.nkeys - 1;
    while j >= 0 && key < n.keys[j]
      invariant s - 1 <= j < n.nkeys
    {
      j := j - 1;
    }
    i := j + 1;
  }

  lemma LeafStored(pool: seq<Node>, pool': seq<Node>, t: Tree, key: int, next: nat, h: nat)
    requires Owned(pool, next, t) && Filled(t) && Uniform(t, h) && |t.keys| < MAX_KEYS && t.kids == []
    requires |pool| == |pool'| && WellSized(pool'[t.id]) && pool'[t.id].nkeys == |t.keys| + 1 && pool'[t.id].leaf
    requires IsPut(pool'[t.id].keys, pool[t.id].keys, Slot(t.keys, key), |t.keys|, key)
    requires forall x :: 0 <= x < |pool| && x != t.id ==> pool'[x] == pool[x]
    ensures Stores(pool', Insert(t, key, next, h).0) && Untouched(pool, pool', next, t)
  {
    var s := Slot(t.keys, key);
    PutIn(pool'[t.id].keys, pool[t.id].keys, s, |t.keys|, key);
    assert pool[t.id].keys[..s] == t.keys[..s] && pool[t.id].keys[s..|t.keys|] == t.keys[s..];
    assert t.id in Ids(t);
  }

  /** An insertion below a prepared child, seen from its parent. */
  lemma InsertStored(before: seq<Node>, middle: seq<Node>, after: seq<Node>,
                     t: Tree, key: int, next: nat, h: nat, p: Tree, i: nat, n: nat)
    requires Filled(t) && Uniform(t, h) && |t.keys| < MAX_KEYS && t.kids != [] && (p, i, n) == Prepared(t, key, next)
    requires h > 0 && i < |p.kids| && Filled(p.kids[i]) && Uniform(p.kids[i], h - 1) && |p.kids[i].keys| < MAX_KEYS
    requires Apart(t) && IdsBelow(t, next) && Untouched(before, middle, next, t) && Owned(middle, n, p)
    requires Stores(after, Insert(p.kids[i], key, n, h - 1).0) && Untouched(middle, after, n, p.kids[i])
    ensures Stores(after, Insert(t, key, next, h).0) && Untouched(before, after, next, t)
  {
    var (k, n') := Insert(p.kids[i], key, n, h - 1);
    InsertUnfolds(t, key, next, h, p, i, n, k, n');
    KidOwned(p, i, n);
    InsertIds(p.kids[i], key, n, h - 1);
    StoresReplace(middle, after, n, p, i, k);
    PreparedIds(t, key, next, h);
    KidsInside(p, i);
  }

  /** The nodes a preemptive split takes are among those the insertion takes. */
  lemma PreparedFits(t: Tree, key: int, next: nat, h: nat, pool: nat) returns (p: Tree)
    requires Filled(t) && Uniform(t, h) && |t.keys| < MAX_KEYS && t.kids != [] && Insert(t, key, next, h).1 <= pool
    ensures p == Prepared(t, key, next).0 && Prepared(t, key, next).2 <= pool
    ensures
      var (q, i, n) := Prepared(t, key, next);
      && i < |p.kids| && h > 0 && Filled(p.kids[i]) && Uniform(p.kids[i], h - 1) && |p.kids[i].keys| < MAX_KEYS
      && Insert(p.kids[i], key, n, h - 1).1 == Insert(t, key, next, h).1
  {
    PreparedShape(t, key, next, h);
    var (q, i, n) := Prepared(t, key, next);
    p := q;
    var (k, n') := Insert(p.kids[i], key, n, h - 1);
    InsertUnfolds(t, key, next, h, p, i, n, k, n');
    InsertNodes(p.kids[i], key, n, h - 1);
  }

  /** What insertion at the root gives, when exactly the nodes of the tree are in use. */
  lemma InsertedTree(t: Tree, key: int, next: nat, h: nat) returns (h': nat)
    requires Filled(t) && Uniform(t, h) && Sorted(InOrder(t)) && next == Nodes(t)
    ensures
      var (t', n) := InsertRoot(t, key, next, h);
      && Filled(t') && Uniform(t', h') && Sorted(InOrder(t')) && h' <= h + 1 && n == Nodes(t')
      && multiset(InOrder(t')) == multiset(InOrder(t)) + multiset{key}
  {
    InsertRootCorrect(t, key, next, h);
    InsertRootNodes(t, key, next, h);
    h' := if |t.keys| == MAX_KEYS then h + 1 else h;
  }

  lemma GrowthFits(t: Tree, key: int, next: nat, h: nat, pool: nat)
    requires Filled(t) && Uniform(t, h) && |t.keys| == MAX_KEYS && InsertRoot(t, key, next, h).1 <= pool
    ensures next + 2 <= pool
  {
    var r := GrownRoot(t, key, next, next + 2, h);
    InsertNodes(r, key, next + 2, h + 1);
  }

  lemma CountOf(a: seq<int>, b: seq<int>, c: seq<int>)
    requires multiset(a) == multiset(b) + multiset(c)
    ensures |a| == |b| + |c|
  {
    assert |multiset(a)| == |a| && |multiset(b)| == |b| && |multiset(c)| == |c|;
  }

  lemma OneMoreKey(a: seq<int>, b: seq<int>, keys: seq<int>, i: nat, a': seq<int>)
    requires i < |keys| && multiset(a) == multiset(b) + multiset(keys[..i])
    requires multiset(a') == multiset(a) + multiset{keys[i]}
    ensures multiset(a') == multiset(b) + multiset(keys[..i + 1])
  {
    assert keys[..i + 1] == keys[..i] + [keys[i]];
  }

  lemma FirstOwned(pool: seq<Node>, id: nat, key: int)
    requires id < |pool| && pool[id] == Node([key, 0, 0, 0], [0, 0, 0, 0, 0], 1, true)
    ensures Owned(pool, id + 1, Tree(id, [key], []))
  {
    assert pool[id].keys[..1] == [key];
  }

  lemma NewRootOwned(pool: seq<Node>, pool': seq<Node>, next: nat, t: Tree)
    requires Owned(pool, next, t) && |pool| == |pool'| && next < |pool|
    requires pool'[next] == Node([0, 0, 0, 0], [t.id, 0, 0, 0, 0], 0, false)
    requires forall x :: 0 <= x < |pool| && x != next ==> pool'[x] == pool[x]
    ensures Owned(pool', next + 1, NewRoot(t, next))
  {
    StoresFrame(pool, pool', t);
    OneKid(t);
  }

  /** Inserting into the grown tree, with two nodes taken, is inserting into t. */
  lemma GrownRoot(t: Tree, key: int, next: nat, n: nat, h: nat) returns (r: Tree)
    requires Filled(t) && Uniform(t, h) && |t.keys| == MAX_KEYS && n == next + 2
    ensures r == SplitKid(NewRoot(t, next), 0, next + 1) && Filled(r) && Uniform(r, h + 1) && |r.keys| < MAX_KEYS
    ensures InsertRoot(t, key, next, h) == Insert(r, key, n, h + 1)
  {
    r := SplitKid(NewRoot(t, next), 0, next + 1);
    SplitShape(NewRoot(t, next), 0, next + 1, h + 1);
  }

  lemma KeptRoot(t: Tree, key: int, next: nat, h: nat)
    requires Filled(t) && Uniform(t, h) && |t.keys| < MAX_KEYS
    ensures InsertRoot(t, key, next, h) == Insert(t, key, next, h)
  {
  }

  lemma InsertIdKept(t: Tree, key: int, next: nat, h: nat)
    requires Filled(t) && Uniform(t, h) && |t.keys| < MAX_KEYS
    ensures Insert(t, key, next, h).0.id == t.id
  {
  }

  lemma {:induction false} CountLessStep(keys: seq<int>, key: int, i: nat)
    requires i <= CountLess(keys, key)
    ensures i < |keys| && key > keys[i] <==> i < CountLess(keys, key)
  {
    if i > 0 {
      CountLessStep(keys[1..], key, i - 1);
    }
  }

  /** What the traversal has emitted after i keys. */
  ghost function Visited(t: Tree, i: nat): seq<int>
    requires i <= |t.keys| && (t.kids == [] || |t.kids| == |t.keys| + 1)
  {
    if t.kids == [] then t.keys[..i] else Before(t.kids, t.keys, i)
  }

  ghost function Below(t: Tree, i: nat): seq<int>
    requires t.kids == [] || i < |t.kids|
  {
    if t.kids == [] then [] else InOrder(t.kids[i])
  }

  /** What is visited before and below kid i, and the key after it, are all among the keys of the tree. */
  lemma VisitedFits(t: Tree, i: nat)
    requires i < |t.keys| && (t.kids == [] || |t.kids| == |t.keys| + 1)
    ensures |Visited(t, i)| + |Below(t, i)| + 1 <= |InOrder(t)|
  {
    if t.kids != [] {
      WeaveSplit(t.kids, t.keys, i);
    }
  }

  lemma VisitedNext(t: Tree, i: nat)
    requires i < |t.keys| && (t.kids == [] || |t.kids| == |t.keys| + 1)
    ensures Visited(t, i + 1) == Visited(t, i) + Below(t, i) + [t.keys[i]]
  {
    if t.kids != [] {
      BeforeNext(t.kids, t.keys, i);
    }
  }

  lemma {:induction false} BeforeNext(kids: seq<Tree>, keys: seq<int>, i: nat)
    requires i + 1 < |kids| && i < |keys|
    ensures Before(kids, keys, i + 1) == Before(kids, keys, i) + InOrder(kids[i]) + [keys[i]]
    decreases i
  {
    if i > 0 {
      BeforeNext(kids[1..], keys[1..], i - 1);
      Chain(InOrder(kids[0]) + [keys[0]], Before(kids[1..], keys[1..], i - 1), InOrder(kids[i]), [keys[i]]);
    }
  }

  lemma Chain(a: seq<int>, b: seq<int>, c: seq<int>, d: seq<int>)
    ensures a + (b + c + d) == a + b + c + d
  {
  }

  lemma VisitedAll(t: Tree)
    requires t.kids == [] || |t.kids| == |t.keys| + 1
    ensures InOrder(t) == Visited(t, |t.keys|) + Below(t, |t.keys|)
  {
    if t.kids != [] {
      WeaveSplit(t.kids, t.keys, |t.keys|);
    }
  }
}
