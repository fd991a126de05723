/**
  B-trees of order 4 with preemptive splits (test/realworld/c/btree.c), as values.

  A node carries the pool index it is stored at, so that the same trees describe the
  memory of the program; nothing in this file depends on those indices.
 */
module BTree {

  const MAX_KEYS := 3

  /** A leaf has no kids, an inner node one kid more than keys. */
  datatype Tree = Tree(id: nat, keys: seq<int>, kids: seq<Tree>)

  // ----- the structural invariants -----

  /** One to three keys in every node, and the right number of kids. */
  ghost predicate Filled(t: Tree) {
    && 1 <= |t.keys| <= MAX_KEYS
    && (t.kids == [] || |t.kids| == |t.keys| + 1)
    && forall k :: k in t.kids ==> Filled(k)
  }

  /** All leaves at depth h. */
  ghost predicate Uniform(t: Tree, h: nat) {
    if t.kids == [] then h == 0
    else h > 0 && forall k :: k in t.kids ==> Uniform(k, h - 1)
  }

  // ----- the keys in order -----

  function InOrder(t: Tree): seq<int> {
    if t.kids == [] then t.keys else Weave(t.kids, t.keys)
  }

  /** Kids and keys in turn, starting with a kid. */
  function Weave(kids: seq<Tree>, keys: seq<int>): seq<int> {
    if kids == [] then []
    else if keys == [] then InOrder(kids[0])
    else InOrder(kids[0]) + [keys[0]] + Weave(kids[1..], keys[1..])
  }

  predicate Sorted(s: seq<int>) {
    forall i, j :: 0 <= i < j < |s| ==> s[i] <= s[j]
  }

  // ----- search -----

  /** How many leading keys are smaller than key. */
  function CountLess(keys: seq<int>, key: int): (n: nat)
    ensures n <= |keys|
    ensures n > 0 ==> keys[n - 1] < key
    ensures n < |keys| ==> key <= keys[n]
  {
    if keys == [] || key <= keys[0] then 0 else 1 + CountLess(keys[1..], key)
  }

  predicate Found(t: Tree, key: int) {
    var i := CountLess(t.keys, key);
    (i < |t.keys| && t.keys[i] == key) || (i < |t.kids| && Found(t.kids[i], key))
  }

  // ----- insertion -----

  /** How many keys, counted from the left end of the last run, are at most key. */
  function Slot(keys: seq<int>, key: int): (n: nat)
    ensures n <= |keys|
    ensures forall i :: n <= i < |keys| ==> key < keys[i]
    ensures n > 0 ==> keys[n - 1] <= key
  {
    if keys == [] then 0
    else if key < keys[|keys| - 1] then Slot(keys[..|keys| - 1], key)
    else |keys|
  }

  function LeftHalf(t: Tree): Tree
    requires |t.keys| == MAX_KEYS
  {
    Tree(t.id, t.keys[..1], if t.kids == [] || |t.kids| < 2 then [] else t.kids[..2])
  }

  function RightHalf(t: Tree, id: nat): Tree
    requires |t.keys| == MAX_KEYS
  {
    Tree(id, t.keys[2..], if t.kids == [] || |t.kids| < 2 then [] else t.kids[2..])
  }

  /** The kid at i, full, replaced by its two halves around its middle key. */
  function SplitKid(p: Tree, i: nat, id: nat): Tree
    requires i < |p.kids| && i <= |p.keys| && |p.kids[i].keys| == MAX_KEYS
  {
    var k := p.kids[i];
    Tree(p.id, p.keys[..i] + [k.keys[1]] + p.keys[i..],
         p.kids[..i] + [LeftHalf(k), RightHalf(k, id)] + p.kids[i + 1..])
  }

  /** Where an inner node sends a key, after splitting a full kid first. */
  function Prepared(t: Tree, key: int, next: nat): (Tree, nat, nat)
    requires |t.kids| == |t.keys| + 1
  {
    var i := Slot(t.keys, key);
    if |t.kids[i].keys| == MAX_KEYS then
      var p := SplitKid(t, i, next);
      (p, if key > p.keys[i] then i + 1 else i, next + 1)
    else (t, i, next)
  }

  /** An inner node with room for one more key; a new root has no key yet. */
  ghost predicate Roomy(p: Tree, h: nat) {
    && |p.kids| == |p.keys| + 1 && |p.keys| < MAX_KEYS && h > 0
    && forall k :: k in p.kids ==> Filled(k) && Uniform(k, h - 1)
  }

  lemma HalvesShape(t: Tree, id: nat, h: nat)
    requires Filled(t) && Uniform(t, h) && |t.keys| == MAX_KEYS
    ensures Filled(LeftHalf(t)) && Uniform(LeftHalf(t), h)
    ensures Filled(RightHalf(t, id)) && Uniform(RightHalf(t, id), h)
  {
    forall k | k in LeftHalf(t).kids || k in RightHalf(t, id).kids ensures Filled(k) && Uniform(k, h - 1) {
      assert k in t.kids;
    }
  }

  lemma SplitShape(p: Tree, i: nat, id: nat, h: nat)
    requires Roomy(p, h) && i < |p.kids| && |p.kids[i].keys| == MAX_KEYS
    ensures Filled(SplitKid(p, i, id)) && Uniform(SplitKid(p, i, id), h)
  {
    HalvesShape(p.kids[i], id, h - 1);
    var q := SplitKid(p, i, id);
    forall k | k in q.kids ensures Filled(k) && Uniform(k, h - 1) {
    }
  }

  lemma PreparedShape(t: Tree, key: int, next: nat, h: nat)
    requires Filled(t) && Uniform(t, h) && |t.keys| < MAX_KEYS && t.kids != []
    ensures var (p, i, n) := Prepared(t, key, next);
      && Filled(p) && Uniform(p, h) && i < |p.kids| && p.kids != [] && h > 0
      && |p.kids[i].keys| < MAX_KEYS && Filled(p.kids[i]) && Uniform(p.kids[i], h - 1)
  {
    var i := Slot(t.keys, key);
    assert t.kids[i] in t.kids;
    if |t.kids[i].keys| == MAX_KEYS {
      var p := SplitKid(t, i, next);
      SplitShape(t, i, next, h);
      assert p.kids[i] == LeftHalf(t.kids[i]) && p.kids[i + 1] == RightHalf(t.kids[i], next);
      assert p.kids[i] in p.kids && p.kids[i + 1] in p.kids;
    }
  }

  /** insert_nonfull: the tree after the insertion, and the next free pool index. */
  function Insert(t: Tree, key: int, next: nat, h: nat): (Tree, nat)
    requires Filled(t) && Uniform(t, h) && |t.keys| < MAX_KEYS
    decreases h
  {
    if t.kids == [] then
      var s := Slot(t.keys, key);
      (Tree(t.id, t.keys[..s] + [key] + t.keys[s..], []), next)
    else
      PreparedShape(t, key, next, h);
      var (p, i, n) := Prepared(t, key, next);
      var (k, n') := Insert(p.kids[i], key, n, h - 1);
      (Tree(p.id, p.keys, p.kids[i := k]), n')
  }

  function WithKid(p: Tree, i: nat, k: Tree): Tree
    requires i < |p.kids|
  {
    Tree(p.id, p.keys, p.kids[i := k])
  }

  lemma InsertUnfolds(t: Tree, key: int, next: nat, h: nat, p: Tree, i: nat, n: nat, k: Tree, n': nat)
    requires Filled(t) && Uniform(t, h) && |t.keys| < MAX_KEYS && t.kids != [] && (p, i, n) == Prepared(t, key, next)
    requires h > 0 && i < |p.kids| && Filled(p.kids[i]) && Uniform(p.kids[i], h - 1) && |p.kids[i].keys| < MAX_KEYS
    requires (k, n') == Insert(p.kids[i], key, n, h - 1)
    ensures Insert(t, key, next, h) == (WithKid(p, i, k), n')
  {
  }

  /** btree_insert on a non-empty tree: a full root is split under a new one. */
  function InsertRoot(t: Tree, key: int, next: nat, h: nat): (Tree, nat)
    requires Filled(t) && Uniform(t, h)
  {
    if |t.keys| == MAX_KEYS then
      var r := NewRoot(t, next);
      SplitShape(r, 0, next + 1, h + 1);
      Insert(SplitKid(r, 0, next + 1), key, next + 2, h + 1)
    else Insert(t, key, next, h)
  }

  function NewRoot(t: Tree, id: nat): Tree {
    Tree(id, [], [t])
  }

  lemma ReplaceShape(p: Tree, i: nat, k: Tree, h: nat)
    requires Filled(p) && Uniform(p, h) && i < |p.kids| && h > 0 && Filled(k) && Uniform(k, h - 1)
    ensures Filled(Tree(p.id, p.keys, p.kids[i := k])) && Uniform(Tree(p.id, p.keys, p.kids[i := k]), h)
  {
    var q := Tree(p.id, p.keys, p.kids[i := k]);
    forall x | x in q.kids ensures Filled(x) && Uniform(x, h - 1) {
      assert x == k || x in p.kids;
    }
  }

  /** Insertion keeps one to three keys per node and all leaves at one depth. */
  lemma {:induction false} InsertShape(t: Tree, key: int, next: nat, h: nat)
    requires Filled(t) && Uniform(t, h) && |t.keys| < MAX_KEYS
    ensures Filled(Insert(t, key, next, h).0) && Uniform(Insert(t, key, next, h).0, h)
    decreases h
  {
    if t.kids != [] {
      PreparedShape(t, key, next, h);
      var (p, i, n) := Prepared(t, key, next);
      InsertShape(p.kids[i], key, n, h - 1);
      ReplaceShape(p, i, Insert(p.kids[i], key, n, h - 1).0, h);
    }
  }

  // ----- what is around one kid -----

  /** Everything before kid i, and everything after it. */
  function Before(kids: seq<Tree>, keys: seq<int>, i: nat): seq<int>
    requires i < |kids| && i <= |keys|
  {
    if i == 0 then [] else InOrder(kids[0]) + [keys[0]] + Before(kids[1..], keys[1..], i - 1)
  }

  function After(kids: seq<Tree>, keys: seq<int>, i: nat): seq<int>
    requires i < |kids| && |kids| == |keys| + 1
  {
    if i == |keys| then [] else [keys[i]] + Weave(kids[i + 1..], keys[i + 1..])
  }

  lemma {:induction false} WeaveSplit(kids: seq<Tree>, keys: seq<int>, i: nat)
    requires i < |kids| && |kids| == |keys| + 1
    ensures Weave(kids, keys) == Before(kids, keys, i) + InOrder(kids[i]) + After(kids, keys, i)
    decreases i
  {
    if i > 0 {
      WeaveSplit(kids[1..], keys[1..], i - 1);
      AfterTail(kids, keys, i);
    } else if keys != [] {
      assert kids[0 + 1..] == kids[1..];
    }
  }

  lemma AfterTail(kids: seq<Tree>, keys: seq<int>, i: nat)
    requires 0 < i < |kids| && |kids| == |keys| + 1
    ensures After(kids[1..], keys[1..], i - 1) == After(kids, keys, i)
  {
    if i < |keys| {
      assert kids[1..][i - 1 + 1..] == kids[i + 1..] && keys[1..][i - 1 + 1..] == keys[i + 1..];
    }
  }

  lemma {:induction false} BeforeFrame(kids: seq<Tree>, kids': seq<Tree>, keys: seq<int>, keys': seq<int>, i: nat)
    requires i < |kids| && i < |kids'| && i <= |keys| && i <= |keys'|
    requires kids[..i] == kids'[..i] && keys[..i] == keys'[..i]
    ensures Before(kids, keys, i) == Before(kids', keys', i)
    decreases i
  {
    if i > 0 {
      assert kids[0] == kids[..i][0] && keys[0] == keys[..i][0];
      assert kids[1..][..i - 1] == kids[..i][1..] && kids'[1..][..i - 1] == kids'[..i][1..];
      assert keys[1..][..i - 1] == keys[..i][1..] && keys'[1..][..i - 1] == keys'[..i][1..];
      BeforeFrame(kids[1..], kids'[1..], keys[1..], keys'[1..], i - 1);
    }
  }

  /** Replacing one kid changes the order only there. */
  lemma ReplaceKid(kids: seq<Tree>, keys: seq<int>, i: nat, k: Tree)
    requires i < |kids| && |kids| == |keys| + 1
    ensures Weave(kids[i := k], keys) == Before(kids, keys, i) + InOrder(k) + After(kids, keys, i)
  {
    var kids' := kids[i := k];
    WeaveSplit(kids', keys, i);
    BeforeFrame(kids, kids', keys, keys, i);
    if i < |keys| {
      assert kids'[i + 1..] == kids[i + 1..];
    }
  }

  // ----- splitting keeps the order -----

  lemma HalvesOrder(t: Tree, id: nat)
    requires |t.keys| == MAX_KEYS && (t.kids == [] || |t.kids| == |t.keys| + 1)
    ensures InOrder(LeftHalf(t)) + [t.keys[1]] + InOrder(RightHalf(t, id)) == InOrder(t)
  {
    if t.kids == [] {
      assert t.keys == t.keys[..1] + [t.keys[1]] + t.keys[2..];
    } else {
      var kids, keys := t.kids, t.keys;
      WeaveSplit(kids, keys, 1);
      assert After(kids, keys, 1) == [keys[1]] + Weave(kids[2..], keys[2..]);
      WeaveSplit(kids[..2], keys[..1], 1);
      BeforeFrame(kids, kids[..2], keys, keys[..1], 1);
      assert After(kids[..2], keys[..1], 1) == [];
    }
  }

  lemma SplitOrder(p: Tree, i: nat, id: nat)
    requires |p.kids| == |p.keys| + 1 && i < |p.kids| && |p.kids[i].keys| == MAX_KEYS
    requires p.kids[i].kids == [] || |p.kids[i].kids| == MAX_KEYS + 1
    ensures InOrder(SplitKid(p, i, id)) == InOrder(p)
  {
    var k, q := p.kids[i], SplitKid(p, i, id);
    WeaveSplit(p.kids, p.keys, i);
    WeaveSplit(q.kids, q.keys, i);
    BeforeFrame(p.kids, q.kids, p.keys, q.keys, i);
    assert q.kids[i] == LeftHalf(k);
    HalvesOrder(k, id);
    SplitAfter(p, i, id);
    Regroup(Before(p.kids, p.keys, i), InOrder(LeftHalf(k)), [k.keys[1]], InOrder(RightHalf(k, id)), After(p.kids, p.keys, i));
  }

  lemma Regroup(a: seq<int>, b: seq<int>, c: seq<int>, d: seq<int>, e: seq<int>)
    ensures a + b + (c + d + e) == a + (b + c + d) + e
  {
  }

  lemma SplitAfter(p: Tree, i: nat, id: nat)
    requires |p.kids| == |p.keys| + 1 && i < |p.kids| && |p.kids[i].keys| == MAX_KEYS
    ensures var q := SplitKid(p, i, id);
      After(q.kids, q.keys, i) == [p.kids[i].keys[1]] + InOrder(RightHalf(p.kids[i], id)) + After(p.kids, p.keys, i)
  {
    var k, q := p.kids[i], SplitKid(p, i, id);
    var tail, rest := q.kids[i + 1..], q.keys[i + 1..];
    assert tail == [RightHalf(k, id)] + p.kids[i + 1..] && rest == p.keys[i..];
    assert q.keys[i] == k.keys[1];
    if rest != [] {
      assert tail[1..] == p.kids[i + 1..] && rest[1..] == p.keys[i + 1..];
    }
  }

  // ----- insertion puts the key in its place -----

  /** s' is s with key put after elements that are at most key and before elements that are at least key. */
  ghost predicate Inserted(s: seq<int>, key: int, s': seq<int>) {
    exists a, b :: UpTo(a, key) && From(b, key) && s == a + b && s' == a + [key] + b
  }

  predicate UpTo(s: seq<int>, key: int) {
    forall i :: 0 <= i < |s| ==> s[i] <= key
  }

  predicate From(s: seq<int>, key: int) {
    forall i :: 0 <= i < |s| ==> key <= s[i]
  }

  lemma InsertedAround(a: seq<int>, s: seq<int>, s': seq<int>, b: seq<int>, key: int)
    requires Inserted(s, key, s') && UpTo(a, key) && From(b, key)
    ensures Inserted(a + s + b, key, a + s' + b)
  {
    var x, y :| UpTo(x, key) && From(y, key) && s == x + y && s' == x + [key] + y;
    UpToConcat(a, x, key);
    FromConcat(y, b, key);
    assert a + s + b == (a + x) + (y + b);
    assert a + s' + b == (a + x) + [key] + (y + b);
  }

  lemma UpToConcat(a: seq<int>, b: seq<int>, key: int)
    requires UpTo(a, key) && UpTo(b, key)
    ensures UpTo(a + b, key)
  {
  }

  lemma FromConcat(a: seq<int>, b: seq<int>, key: int)
    requires From(a, key) && From(b, key)
    ensures From(a + b, key)
  {
  }

  /** An insertion keeps a sorted sequence sorted and adds exactly the key. */
  lemma InsertedMeaning(s: seq<int>, key: int, s': seq<int>)
    requires Inserted(s, key, s') && Sorted(s)
    ensures Sorted(s') && multiset(s') == multiset(s) + multiset{key}
  {
    var a, b :| UpTo(a, key) && From(b, key) && s == a + b && s' == a + [key] + b;
    SortedAround(a, b, key);
  }

  lemma SortedAround(a: seq<int>, b: seq<int>, key: int)
    requires Sorted(a + b) && UpTo(a, key) && From(b, key)
    ensures Sorted(a + [key] + b)
  {
    var s, t := a + b, a + [key] + b;
    forall i, j | 0 <= i < j < |t| ensures t[i] <= t[j] {
      var i', j' := if i <= |a| then i else i - 1, if j <= |a| then j else j - 1;
      assert i != |a| ==> t[i] == s[i'];
      assert j != |a| ==> t[j] == s[j'];
    }
  }

  lemma SortedParts(a: seq<int>, b: seq<int>, c: seq<int>)
    requires Sorted(a + b + c)
    ensures Sorted(a) && Sorted(b) && Sorted(c)
  {
    var s := a + b + c;
    assert forall i :: 0 <= i < |a| ==> a[i] == s[i];
    assert forall i :: 0 <= i < |b| ==> b[i] == s[|a| + i];
    assert forall i :: 0 <= i < |c| ==> c[i] == s[|a| + |b| + i];
  }

  lemma {:induction false} BeforeLast(kids: seq<Tree>, keys: seq<int>, i: nat)
    requires 0 < i < |kids| && i <= |keys|
    ensures |Before(kids, keys, i)| > 0 && Before(kids, keys, i)[|Before(kids, keys, i)| - 1] == keys[i - 1]
    decreases i
  {
    if i > 1 {
      BeforeLast(kids[1..], keys[1..], i - 1);
    }
  }

  /** In a sorted node, what is before kid i ends with keys[i - 1] and what is after it starts with keys[i]. */
  lemma Around(kids: seq<Tree>, keys: seq<int>, i: nat)
    requires i < |kids| && |kids| == |keys| + 1 && Sorted(Weave(kids, keys))
    ensures i > 0 ==> UpTo(Before(kids, keys, i), keys[i - 1])
    ensures i < |keys| ==> From(After(kids, keys, i), keys[i])
    ensures Sorted(InOrder(kids[i]))
  {
    WeaveSplit(kids, keys, i);
    SortedParts(Before(kids, keys, i), InOrder(kids[i]), After(kids, keys, i));
    if i > 0 {
      BeforeLast(kids, keys, i);
      SortedEnds(Before(kids, keys, i));
    }
    if i < |keys| {
      SortedEnds(After(kids, keys, i));
      assert After(kids, keys, i)[0] == keys[i];
    }
  }

  lemma SortedEnds(s: seq<int>)
    requires Sorted(s) && s != []
    ensures UpTo(s, s[|s| - 1]) && From(s, s[0])
  {
  }

  lemma SlotSplits(keys: seq<int>, key: int)
    requires Sorted(keys)
    ensures Inserted(keys, key, keys[..Slot(keys, key)] + [key] + keys[Slot(keys, key)..])
  {
    SplitsAt(keys, key, Slot(keys, key));
  }

  lemma SplitsAt(keys: seq<int>, key: int, s: nat)
    requires Sorted(keys) && s <= |keys| && (s > 0 ==> keys[s - 1] <= key)
    requires forall i :: s <= i < |keys| ==> key < keys[i]
    ensures Inserted(keys, key, keys[..s] + [key] + keys[s..])
  {
    assert UpTo(keys[..s], key) && From(keys[s..], key) && keys == keys[..s] + keys[s..];
  }

  /** The kid a key is sent to lies between a key that is at most it and one that is at least it. */
  lemma PreparedOrder(t: Tree, key: int, next: nat)
    requires |t.kids| == |t.keys| + 1
    ensures var (p, i, n) := Prepared(t, key, next);
      && |p.kids| == |p.keys| + 1 && i < |p.kids|
      && (i > 0 ==> p.keys[i - 1] <= key) && (i < |p.keys| ==> key <= p.keys[i])
  {
    var i := Slot(t.keys, key);
    if |t.kids[i].keys| == MAX_KEYS {
      SplitBrackets(t, key, next, i);
    }
  }

  lemma PreparedInOrder(t: Tree, key: int, next: nat)
    requires Filled(t) && t.kids != []
    ensures InOrder(Prepared(t, key, next).0) == InOrder(t)
  {
    var i := Slot(t.keys, key);
    assert t.kids[i] in t.kids;
    if |t.kids[i].keys| == MAX_KEYS {
      SplitOrder(t, i, next);
    }
  }

  lemma SplitBrackets(t: Tree, key: int, id: nat, i: nat)
    requires |t.kids| == |t.keys| + 1 && i <= |t.keys| && |t.kids[i].keys| == MAX_KEYS
    requires (i > 0 ==> t.keys[i - 1] <= key) && (i < |t.keys| ==> key <= t.keys[i])
    ensures var p := SplitKid(t, i, id);
      && |p.kids| == |p.keys| + 1 && i < |p.keys|
      && var j := if key > p.keys[i] then i + 1 else i;
         (j > 0 ==> p.keys[j - 1] <= key) && (j < |p.keys| ==> key <= p.keys[j])
  {
    SplitKeysAre(t, i, id);
  }

  lemma SplitKeysAre(t: Tree, i: nat, id: nat)
    requires i < |t.kids| && i <= |t.keys| && |t.kids[i].keys| == MAX_KEYS
    ensures var p := SplitKid(t, i, id);
      && |p.keys| == |t.keys| + 1 && |p.kids| == |t.kids| + 1 && p.keys[i] == t.kids[i].keys[1]
      && (i > 0 ==> p.keys[i - 1] == t.keys[i - 1]) && (i + 1 < |p.keys| ==> p.keys[i + 1] == t.keys[i])
  {
  }

  /** Insertion puts the key in its place in the order, and changes nothing else. */
  lemma {:induction false} InsertOrder(t: Tree, key: int, next: nat, h: nat)
    requires Filled(t) && Uniform(t, h) && |t.keys| < MAX_KEYS && Sorted(InOrder(t))
    ensures Inserted(InOrder(t), key, InOrder(Insert(t, key, next, h).0))
    decreases h
  {
    if t.kids == [] {
      SlotSplits(t.keys, key);
    } else {
      PreparedShape(t, key, next, h);
      PreparedInOrder(t, key, next);
      PreparedOrder(t, key, next);
      var (p, i, n) := Prepared(t, key, next);
      Around(p.kids, p.keys, i);
      InsertOrder(p.kids[i], key, n, h - 1);
      InsertBelow(p, i, key, Insert(p.kids[i], key, n, h - 1).0);
    }
  }

  lemma InsertBelow(p: Tree, i: nat, key: int, k: Tree)
    requires |p.kids| == |p.keys| + 1 && i < |p.kids| && Sorted(InOrder(p))
    requires (i > 0 ==> p.keys[i - 1] <= key) && (i < |p.keys| ==> key <= p.keys[i])
    requires Inserted(InOrder(p.kids[i]), key, InOrder(k))
    ensures Inserted(InOrder(p), key, InOrder(Tree(p.id, p.keys, p.kids[i := k])))
  {
    var a, b := Before(p.kids, p.keys, i), After(p.kids, p.keys, i);
    Around(p.kids, p.keys, i);
    assert UpTo(a, key) && From(b, key);
    WeaveSplit(p.kids, p.keys, i);
    ReplaceKid(p.kids, p.keys, i, k);
    InsertedAround(a, InOrder(p.kids[i]), InOrder(k), b, key);
  }

  lemma NewRootOrder(t: Tree, id: nat)
    ensures InOrder(NewRoot(t, id)) == InOrder(t)
  {
  }

  lemma InsertCorrect(t: Tree, key: int, next: nat, h: nat)
    requires Filled(t) && Uniform(t, h) && |t.keys| < MAX_KEYS && Sorted(InOrder(t))
    ensures var r := Insert(t, key, next, h).0;
      && Filled(r) && Uniform(r, h)
      && Sorted(InOrder(r)) && multiset(InOrder(r)) == multiset(InOrder(t)) + multiset{key}
  {
    InsertShape(t, key, next, h);
    InsertOrder(t, key, next, h);
    InsertedMeaning(InOrder(t), key, InOrder(Insert(t, key, next, h).0));
  }

  /** btree_insert: shape kept, order kept, exactly one key more. */
  lemma InsertRootCorrect(t: Tree, key: int, next: nat, h: nat)
    requires Filled(t) && Uniform(t, h) && Sorted(InOrder(t))
    ensures var r := InsertRoot(t, key, next, h).0;
      && Filled(r) && Uniform(r, if |t.keys| == MAX_KEYS then h + 1 else h)
      && Sorted(InOrder(r)) && multiset(InOrder(r)) == multiset(InOrder(t)) + multiset{key}
  {
    if |t.keys| == MAX_KEYS {
      var r := NewRoot(t, next);
      var s := SplitKid(r, 0, next + 1);
      SplitShape(r, 0, next + 1, h + 1);
      SplitOrder(r, 0, next + 1);
      NewRootOrder(t, next);
      InsertCorrect(s, key, next + 2, h + 1);
    } else {
      InsertCorrect(t, key, next, h);
    }
  }

  // ----- search is exact -----

  lemma {:induction false} FoundIffMember(t: Tree, key: int)
    requires Filled(t) && Sorted(InOrder(t))
    ensures Found(t, key) <==> key in InOrder(t)
  {
    var i := CountLess(t.keys, key);
    if t.kids == [] {
      LeafMember(t.keys, key);
    } else {
      assert t.kids[i] in t.kids;
      Around(t.kids, t.keys, i);
      WeaveSplit(t.kids, t.keys, i);
      FoundIffMember(t.kids[i], key);
    }
  }

  lemma LeafMember(keys: seq<int>, key: int)
    requires Sorted(keys)
    ensures key in keys <==> var i := CountLess(keys, key); i < |keys| && keys[i] == key
  {
    var i := CountLess(keys, key);
    if key in keys {
      var j :| 0 <= j < |keys| && keys[j] == key;
    }
  }
}
