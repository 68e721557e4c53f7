/** The B+ tree as a value: a map from page addresses to nodes, what makes it well formed, and
    what each restructuring step of src/b_tree.c does to it.  Nothing here is executable. */
module BTreeModel {
  import opened Common

  type Degree = d: int | 2 <= d witness 3

  /** DEGREE of include/b_tree.h, which only has to be at least two. */
  const DEGREE: Degree

  /** A node.  `lvl` is its distance to the leaves, and every key below it lies in
      [lo, hi). */
  datatype Node = Node(parent: int, keys: seq<RID>, kids: seq<int>, lvl: nat, lo: real, hi: real)

  /** `owner` gives for every record referenced by the tree the page that references it; pages
      in `lost` came back with the file although they had been cut off before it was closed. */
  datatype Tree = Tree(root: int, nodes: map<int, Node>, owner: map<RID, int>, lost: set<int>)

  // ---- well-formedness

  ghost function Rk(recs: Records, r: RID): real { if r in recs then recs[r].rank else 0.0 }

  ghost predicate Sorted(keys: seq<RID>, recs: Records) {
    forall i, j :: 0 <= i < j < |keys| ==> Rk(recs, keys[i]) < Rk(recs, keys[j])
  }

  /** Leaf keys lie in [lo, hi), separators in (lo, hi); the records of leaves have values. */
  ghost predicate Within(keys: seq<RID>, recs: Records, lo: real, hi: real, leaf: bool) {
    forall r :: r in keys ==>
      r in recs && lo <= Rk(recs, r) < hi && (leaf || lo < Rk(recs, r)) && (recs[r].value.Some? <==> leaf)
  }

  ghost predicate NodeOk(nd: Node, recs: Records) {
    && (if nd.lvl == 0 then nd.kids == [] else |nd.kids| == |nd.keys| + 1)
    && Sorted(nd.keys, recs)
    && Within(nd.keys, recs, nd.lo, nd.hi, nd.lvl == 0)
  }

  ghost predicate Nodes(t: map<int, Node>, recs: Records) {
    forall a :: a in t ==> a >= 1 && NodeOk(t[a], recs)
  }

  /** The bounds that a node imposes on child `i`: left < separator <= right. */
  ghost function Lo(nd: Node, recs: Records, i: nat): real {
    if 0 < i <= |nd.keys| then Rk(recs, nd.keys[i - 1]) else nd.lo
  }

  ghost function Hi(nd: Node, recs: Records, i: nat): real {
    if i < |nd.keys| then Rk(recs, nd.keys[i]) else nd.hi
  }

  ghost predicate KidOk(t: map<int, Node>, recs: Records, left: int, right: int, a: int, i: nat)
    requires a in t && i < |t[a].kids|
  {
    var c := t[a].kids[i];
    && c in t && c != right
    && t[c].lvl + 1 == t[a].lvl
    && t[c].parent == a
    && t[c].lo == Lo(t[a], recs, i)
    && (if c == left && right in t then t[right].hi else t[c].hi) == Hi(t[a], recs, i)
  }

  ghost predicate Distinct(s: seq<int>) { forall i, j :: 0 <= i < j < |s| ==> s[i] != s[j] }

  /** Parents know their children ... */
  ghost predicate Down(t: map<int, Node>, recs: Records, left: int, right: int) {
    && (forall a, i :: a in t && 0 <= i < |t[a].kids| ==> KidOk(t, recs, left, right, a, i))
    && (forall a :: a in t ==> Distinct(t[a].kids))
  }

  /** ... and children their parents. */
  ghost predicate Up(t: map<int, Node>, root: int, right: int) {
    forall c :: c in t && c != root && c != right ==> t[c].parent in t && c in t[t[c].parent].kids
  }

  ghost predicate Pending(t: map<int, Node>, left: int, right: int) {
    right != -1 ==>
      && left in t && right in t && left != right
      && t[left].lvl == t[right].lvl
      && t[left].parent == t[right].parent
      && t[left].hi == t[right].lo
  }

  ghost predicate RootOk(t: map<int, Node>, root: int, left: int, right: int) {
    && root in t && root != right
    && t[root].parent == -1
    && t[root].lo == 0.0
    && (if root == left && right in t then t[right].hi else t[root].hi) == 1.0
  }

  /** DEGREE-1 to 2*DEGREE-1 keys in every node but the root.  Page `over` may have one key
      too many and page `under` one too few. */
  ghost predicate Fill(t: map<int, Node>, root: int, over: int, under: int) {
    forall a :: a in t ==>
      && |t[a].keys| <= (if a == over then 2 * DEGREE else 2 * DEGREE - 1)
      && (a != root ==> |t[a].keys| >= if a == under then DEGREE - 2 else DEGREE - 1)
      && (a == root && a != under && t[a].lvl > 0 ==> |t[a].keys| >= 1)
  }

  /** `owner` is exactly the relation between records and the pages that reference them. */
  ghost predicate References(t: map<int, Node>, owner: map<RID, int>) {
    && (forall a, r :: a in t && r in t[a].keys ==> r in owner && owner[r] == a)
    && (forall r :: r in owner ==> owner[r] in t && r in t[owner[r]].keys)
  }

  /** Every live record but the extra ones is referenced by one slot of one node. */
  ghost predicate Owned(t: map<int, Node>, owner: map<RID, int>, recs: Records, extra: set<RID>) {
    && References(t, owner)
    && owner.Keys !! extra
    && owner.Keys + extra == recs.Keys
  }

  /** Everything but the number of keys.  In the middle of an operation page `right` may have
      been split off `left` without being anybody's child yet (-1 stands for no page), and the
      records in `extra` are live but not referenced. */
  ghost predicate Core(g: Tree, recs: Records, left: int, right: int, extra: set<RID>) {
    && Nodes(g.nodes, recs)
    && Down(g.nodes, recs, left, right)
    && Up(g.nodes, g.root, right)
    && Pending(g.nodes, left, right)
    && RootOk(g.nodes, g.root, left, right)
    && Owned(g.nodes, g.owner, recs, extra)
  }

  /** A well-formed B+ tree. */
  ghost predicate WellFormed(g: Tree, recs: Records, extra: set<RID>) {
    Core(g, recs, -1, -1, extra) && Fill(g.nodes, g.root, -1, -1)
  }

  lemma CoreKeys(g: Tree, recs: Records, left: int, right: int, extra: set<RID>)
    requires Core(g, recs, left, right, extra)
    ensures g.owner.Keys !! extra && g.owner.Keys + extra == recs.Keys
  {
  }

  lemma OwnedKeys(g: Tree, recs: Records, extra: set<RID>)
    requires Core(g, recs, -1, -1, extra)
    ensures g.owner.Keys !! extra && g.owner.Keys + extra == recs.Keys
  {
  }

  /** A lone empty leaf on page 1. */
  function EmptyTree(): Tree { Tree(1, map[1 := Node(-1, [], [], 0, 0.0, 1.0)], map[], {}) }

  lemma EmptyWellFormed()
    ensures WellFormed(EmptyTree(), map[], {})
  {
  }

  /** `i` is the first position whose key is not less than `q`. */
  ghost predicate LowerBound(keys: seq<RID>, recs: Records, q: real, i: nat) {
    && i <= |keys|
    && (forall j :: 0 <= j < i ==> Rk(recs, keys[j]) < q)
    && (forall j :: i <= j < |keys| ==> q <= Rk(recs, keys[j]))
  }

  ghost predicate Gap(keys: seq<RID>, recs: Records, q: real, i: nat) {
    LowerBound(keys, recs, q, i) && (i < |keys| ==> Rk(recs, keys[i]) != q)
  }

  lemma OneLowerBound(keys: seq<RID>, recs: Records, q: real, i: nat, j: nat)
    requires LowerBound(keys, recs, q, i) && LowerBound(keys, recs, q, j)
    ensures i == j
  {
    assert i < |keys| ==> q <= Rk(recs, keys[i]);
    assert j < |keys| ==> q <= Rk(recs, keys[j]);
  }

  lemma InsertSorted(keys: seq<RID>, recs: Records, i: nat, r: RID, lo: real, hi: real, leaf: bool)
    requires Sorted(keys, recs) && Within(keys, recs, lo, hi, leaf)
    requires r in recs && lo <= Rk(recs, r) < hi && (leaf || lo < Rk(recs, r)) && (recs[r].value.Some? <==> leaf)
    requires Gap(keys, recs, Rk(recs, r), i)
    ensures Sorted(Inserted(keys, i, r), recs) && Within(Inserted(keys, i, r), recs, lo, hi, leaf)
  {
    InsertAt(keys, i, r);
    hide Inserted;
  }

  // ---- a key enters a leaf

  function AddKey(g: Tree, a: int, i: nat, r: RID): Tree
    requires a in g.nodes && i <= |g.nodes[a].keys|
  {
    var nd := g.nodes[a];
    Tree(g.root, g.nodes[a := nd.(keys := Inserted(nd.keys, i, r))], g.owner[r := a], g.lost)
  }

  /** Page `p`, old or new, takes one of the extra records. */
  lemma OwnRecord(t: map<int, Node>, owner: map<RID, int>, recs: Records, extra: set<RID>, p: int, x: RID,
                  t': map<int, Node>, keys: seq<RID>)
    requires Owned(t, owner, recs, extra) && x in extra
    requires forall r :: r in keys <==> (p in t && r in t[p].keys) || r == x
    requires t'.Keys == t.Keys + {p} && t'[p].keys == keys
    requires forall b :: b in t && b != p ==> t'[b].keys == t[b].keys
    ensures Owned(t', owner[x := p], recs, extra - {x})
  {
    var owner' := owner[x := p];
    forall r | r in owner' ensures r in t'[owner'[r]].keys {
      if r == x {
        assert x in keys;
      } else if owner[r] == p {
        assert r in t[p].keys && r in keys;
      } else {
        assert t'[owner[r]].keys == t[owner[r]].keys;
      }
    }
  }

  /** A leaf may get other keys without any effect on the links. */
  lemma LeafLinks(t: map<int, Node>, recs: Records, root: int, left: int, right: int, a: int, keys: seq<RID>)
    requires Down(t, recs, left, right) && Up(t, root, right)
    requires a in t && t[a].kids == []
    ensures Down(t[a := t[a].(keys := keys)], recs, left, right) && Up(t[a := t[a].(keys := keys)], root, right)
  {
    var t' := t[a := t[a].(keys := keys)];
    forall b, i | b in t' && 0 <= i < |t'[b].kids| ensures KidOk(t', recs, left, right, b, i) {
      assert KidOk(t, recs, left, right, b, i);
    }
  }

  lemma AddKeyOk(g: Tree, recs: Records, extra: set<RID>, a: int, i: nat, r: RID)
    requires Core(g, recs, -1, -1, extra)
    requires r in extra && r in recs && recs[r].value.Some?
    requires a in g.nodes && g.nodes[a].lvl == 0 && g.nodes[a].lo <= Rk(recs, r) < g.nodes[a].hi
    requires Gap(g.nodes[a].keys, recs, Rk(recs, r), i)
    ensures Core(AddKey(g, a, i, r), recs, -1, -1, extra - {r})
  {
    hide Inserted, Sorted, Within, Down, Owned, Up;
    assert NodeOk(g.nodes[a], recs);
    InsertSorted(g.nodes[a].keys, recs, i, r, g.nodes[a].lo, g.nodes[a].hi, true);
    LeafLinks(g.nodes, recs, g.root, -1, -1, a, Inserted(g.nodes[a].keys, i, r));
    InsertAt(g.nodes[a].keys, i, r);
    OwnRecord(g.nodes, g.owner, recs, extra, a, r, AddKey(g, a, i, r).nodes, Inserted(g.nodes[a].keys, i, r));
  }

  lemma SubKeys(keys: seq<RID>, recs: Records, lo: real, hi: real, leaf: bool, i: nat, j: nat)
    requires Sorted(keys, recs) && Within(keys, recs, lo, hi, leaf) && i <= j <= |keys|
    ensures Sorted(keys[i..j], recs)
    ensures leaf ==> Within(keys[i..j], recs, if i < |keys| then Rk(recs, keys[i]) else lo, hi, leaf)
    ensures 0 < i ==> Within(keys[i..j], recs, Rk(recs, keys[i - 1]), hi, leaf)
    ensures j < |keys| ==> Within(keys[i..j], recs, lo, Rk(recs, keys[j]), leaf)
    ensures 0 < i && j > i ==> Rk(recs, keys[i - 1]) < Rk(recs, keys[i])
    ensures Within(keys[i..j], recs, lo, hi, leaf)
  {
    hide Rk;
    forall r | r in keys[i..j]
      ensures
        && r in keys && (i < |keys| ==> Rk(recs, keys[i]) <= Rk(recs, r))
        && (0 < i ==> Rk(recs, keys[i - 1]) < Rk(recs, r)) && (j < |keys| ==> Rk(recs, r) < Rk(recs, keys[j]))
    {
      var k :| i <= k < j && keys[k] == r;
    }
  }

  // ---- leaf `a` is cut at position n: page `y` takes the upper part

  function CutLeaf(g: Tree, recs: Records, a: int, y: int, n: nat): Tree
    requires a in g.nodes && n < |g.nodes[a].keys| && g.nodes[a].keys[n] in recs
  {
    var nd := g.nodes[a];
    var cut := recs[nd.keys[n]].rank;
    Tree(
      g.root,
      g.nodes[a := nd.(keys := nd.keys[..n], hi := cut)][y := nd.(keys := nd.keys[n..], lo := cut)],
      map r | r in g.owner :: if r in nd.keys[n..] then y else g.owner[r],
      g.lost)
  }

  lemma Halves(keys: seq<RID>, recs: Records, n: nat)
    requires Sorted(keys, recs) && n <= |keys|
    ensures forall r :: r in keys <==> r in keys[..n] || r in keys[n..]
    ensures forall r :: r in keys[..n] ==> r !in keys[n..]
  {
    assert keys == keys[..n] + keys[n..];
    forall i, j | 0 <= i < n <= j < |keys| ensures keys[i] != keys[j] {
      assert Rk(recs, keys[i]) < Rk(recs, keys[j]);
    }
  }

  lemma SplitOwned(t: map<int, Node>, owner: map<RID, int>, recs: Records, extra: set<RID>, a: int, y: int,
      t': map<int, Node>,
                   lower: seq<RID>, upper: seq<RID>)
    requires Owned(t, owner, recs, extra) && a in t && y !in t
    requires forall r :: r in t[a].keys <==> r in lower || r in upper
    requires forall r :: r in lower ==> r !in upper
    requires t'.Keys == t.Keys + {y} && t'[a].keys == lower && t'[y].keys == upper
    requires forall b :: b in t && b != a ==> t'[b].keys == t[b].keys
    ensures Owned(t', map r | r in owner :: if r in upper then y else owner[r], recs, extra)
  {
    var owner' := map r | r in owner :: if r in upper then y else owner[r];
    forall b, r | b in t' && r in t'[b].keys ensures r in owner' && owner'[r] == b {
      if b != a && b != y {
        assert r in t[b].keys && owner[r] == b;
      } else {
        assert r in t[a].keys && owner[r] == a;
      }
    }
    forall r | r in owner' ensures owner'[r] in t' && r in t'[owner'[r]].keys {
      assert owner[r] in t && r in t[owner[r]].keys;
    }
  }

  lemma SplitLeafLinks(t: map<int, Node>, recs: Records, root: int, a: int, y: int, nd: Node, nd': Node)
    requires Down(t, recs, -1, -1) && Up(t, root, -1) && RootOk(t, root, -1, -1) && -1 !in t
    requires a in t && t[a].kids == [] && y !in t && y != -1
    requires nd.kids == [] && nd.lvl == t[a].lvl && nd.parent == t[a].parent && nd.lo == t[a].lo && nd'.hi == t[a].hi
    requires nd'.kids == []
    ensures Down(t[a := nd][y := nd'], recs, a, y) && Up(t[a := nd][y := nd'], root, y)
    ensures RootOk(t[a := nd][y := nd'], root, a, y)
  {
    var t' := t[a := nd][y := nd'];
    SplitLeafUp(t, recs, root, a, y, nd, nd');
    hide Up, RootOk, KidOk, Distinct;
    forall b, i | b in t' && 0 <= i < |t'[b].kids| ensures KidOk(t', recs, a, y, b, i) {
      assert b in t && b != a && KidOk(t, recs, -1, -1, b, i);
      KidBesideSplit(t, recs, a, y, nd, nd', b, i);
    }
    forall b | b in t' ensures Distinct(t'[b].kids) {
      assert Distinct(if b == y then t[a].kids else t[b].kids);
    }
  }

  lemma KidBesideSplit(t: map<int, Node>, recs: Records, a: int, y: int, nd: Node, nd': Node, b: int, i: nat)
    requires a in t && y !in t && -1 !in t && nd.lvl == t[a].lvl && nd.parent == t[a].parent && nd.lo == t[a].lo
      && nd'.hi == t[a].hi
    requires b in t && b != a && i < |t[b].kids| && KidOk(t, recs, -1, -1, b, i)
    ensures KidOk(t[a := nd][y := nd'], recs, a, y, b, i)
  {
  }

  lemma SplitLeafUp(t: map<int, Node>, recs: Records, root: int, a: int, y: int, nd: Node, nd': Node)
    requires Up(t, root, -1) && RootOk(t, root, -1, -1) && -1 !in t
    requires a in t && t[a].kids == [] && y !in t && y != -1
    requires nd.kids == [] && nd.parent == t[a].parent && nd.lo == t[a].lo && nd'.hi == t[a].hi
    ensures Up(t[a := nd][y := nd'], root, y) && RootOk(t[a := nd][y := nd'], root, a, y)
  {
    var t' := t[a := nd][y := nd'];
    forall c | c in t' && c != root && c != y ensures t'[c].parent in t' && c in t'[t'[c].parent].kids {
      assert t[c].parent in t && c in t[t[c].parent].kids;
    }
  }

  lemma CutLeafOk(g: Tree, recs: Records, extra: set<RID>, a: int, y: int, n: nat)
    requires Core(g, recs, -1, -1, extra)
    requires a in g.nodes && g.nodes[a].lvl == 0 && n < |g.nodes[a].keys|
    requires y !in g.nodes && y >= 1
    ensures g.nodes[a].keys[n] in recs
    ensures Core(CutLeaf(g, recs, a, y, n), recs, a, y, extra)
  {
    hide Sorted, Down, Owned, Up, RootOk, Rk, Within;
    var keys := g.nodes[a].keys;
    assert NodeOk(g.nodes[a], recs);
    LeafCut(g.nodes[a], recs, n);
    var g' := CutLeaf(g, recs, a, y, n);
    Halves(keys, recs, n);
    SplitOwned(g.nodes, g.owner, recs, extra, a, y, g'.nodes, keys[..n], keys[n..]);
    SplitLeafLinks(g.nodes, recs, g.root, a, y, g'.nodes[a], g'.nodes[y]);
  }

  lemma LeafCut(nd: Node, recs: Records, n: nat)
    requires NodeOk(nd, recs) && nd.lvl == 0 && n < |nd.keys|
    ensures nd.keys[n] in recs
    ensures Sorted(nd.keys[..n], recs) && Sorted(nd.keys[n..], recs)
    ensures Within(nd.keys[..n], recs, nd.lo, recs[nd.keys[n]].rank, nd.lvl == 0)
    ensures Within(nd.keys[n..], recs, recs[nd.keys[n]].rank, nd.hi, nd.lvl == 0)
  {
    assert nd.keys[0..n] == nd.keys[..n] && nd.keys[n..|nd.keys|] == nd.keys[n..];
    SubKeys(nd.keys, recs, nd.lo, nd.hi, nd.lvl == 0, 0, n);
    SubKeys(nd.keys, recs, nd.lo, nd.hi, nd.lvl == 0, n, |nd.keys|);
    assert nd.keys[n] in nd.keys;
  }

  // ---- a pending page `right` becomes child i+1 of page `p`, with separator `x`

  function Link(g: Tree, p: int, i: nat, x: RID, right: int): Tree
    requires p in g.nodes && i <= |g.nodes[p].keys| && i < |g.nodes[p].kids|
  {
    var nd := g.nodes[p];
    Tree(
      g.root,
      g.nodes[p := nd.(keys := Inserted(nd.keys, i, x), kids := Inserted(nd.kids, i + 1, right))],
      g.owner[x := p],
      g.lost)
  }

  /** The separator of a pending page belongs beside the child it was split off. */
  lemma LinkGap(g: Tree, recs: Records, left: int, right: int, extra: set<RID>, p: int, j: nat, q: real)
    requires Core(g, recs, left, right, extra) && right != -1 && left != g.root
    requires p in g.nodes && p == g.nodes[left].parent && q == g.nodes[right].lo
    requires |g.nodes[left].keys| > 0 && |g.nodes[right].keys| > 0
    requires j < |g.nodes[p].kids| && g.nodes[p].kids[j] == left
    ensures Gap(g.nodes[p].keys, recs, q, j)
    ensures g.nodes[p].lvl > 0 && g.nodes[p].lo < q < g.nodes[p].hi
  {
    hide Owned, Up, RootOk;
    var t, nd := g.nodes, g.nodes[p];
    assert KidOk(t, recs, left, right, p, j);
    assert t[left].keys[0] in t[left].keys && t[right].keys[0] in t[right].keys;
    assert t[left].lo < q < t[right].hi;
    assert NodeOk(nd, recs);
    hide Nodes, Down, Pending, Core;
    GapBetween(nd, recs, j, q);
  }

  /** A key strictly between the bounds of child j has its gap there. */
  lemma GapBetween(nd: Node, recs: Records, j: nat, q: real)
    requires NodeOk(nd, recs) && nd.lvl > 0 && j < |nd.kids| && Lo(nd, recs, j) < q < Hi(nd, recs, j)
    ensures Gap(nd.keys, recs, q, j) && nd.lo < q < nd.hi
  {
    NodeBounds(nd, recs, j);
  }

  /** The binary search of the C code finds that position. */
  lemma LinkPosition(g: Tree, recs: Records, left: int, right: int, extra: set<RID>, p: int, i: nat, q: real)
    requires Core(g, recs, left, right, extra) && right != -1 && left != g.root
    requires p in g.nodes && p == g.nodes[left].parent && q == g.nodes[right].lo
    requires |g.nodes[left].keys| > 0 && |g.nodes[right].keys| > 0
    requires LowerBound(g.nodes[p].keys, recs, q, i)
    ensures i < |g.nodes[p].kids| && g.nodes[p].kids[i] == left
  {
    hide Owned, Down, RootOk, Pending;
    var nd := g.nodes[p];
    PendingIn(g.nodes, left, right);
    assert left in nd.kids;
    var j :| 0 <= j < |nd.kids| && nd.kids[j] == left;
    LinkGap(g, recs, left, right, extra, p, j, q);
    OneLowerBound(nd.keys, recs, q, i, j);
    assert NodeOk(nd, recs);
  }

  lemma PendingIn(t: map<int, Node>, left: int, right: int)
    requires Pending(t, left, right) && right != -1
    ensures left in t && right in t && left != right
  {
  }

  lemma NodeBounds(nd: Node, recs: Records, j: nat)
    requires NodeOk(nd, recs) && j <= |nd.keys|
    ensures nd.lo <= Lo(nd, recs, j) && Hi(nd, recs, j) <= nd.hi
    ensures j < |nd.keys| ==> nd.keys[j] in nd.keys
    ensures 0 < j < |nd.keys| ==> Lo(nd, recs, j) < Hi(nd, recs, j)
  {
    if j > 0 {
      assert nd.keys[j - 1] in nd.keys;
    }
    if j < |nd.keys| {
      assert nd.keys[j] in nd.keys;
    }
  }

  lemma LinkDown(t: map<int, Node>, recs: Records, left: int, right: int, p: int, i: nat, x: RID, nd: Node)
    requires Down(t, recs, left, right) && Pending(t, left, right) && right != -1 && -1 !in t
    requires p in t && p == t[left].parent && |t[p].kids| == |t[p].keys| + 1
    requires i < |t[p].kids| && t[p].kids[i] == left
    requires Rk(recs, x) == t[right].lo
    requires nd == t[p].(keys := Inserted(t[p].keys, i, x), kids := Inserted(t[p].kids, i + 1, right))
    ensures Down(t[p := nd], recs, -1, -1)
  {
    hide Inserted, KidOk, Rk;
    InsertAt(t[p].kids, i + 1, right);
    var t' := t[p := nd];
    forall j | 0 <= j < |t[p].kids| ensures t[p].kids[j] != right {
      NotPending(t, recs, left, right, p, j);
    }
    forall b, j | b in t' && 0 <= j < |t'[b].kids| ensures KidOk(t', recs, -1, -1, b, j) {
      if b != p {
        LinkDownOther(t, recs, left, right, p, nd, b, j);
      } else {
        LinkDownHere(t, recs, left, right, p, i, x, nd, j);
      }
    }
  }

  lemma NotPending(t: map<int, Node>, recs: Records, left: int, right: int, p: int, j: nat)
    requires Down(t, recs, left, right) && p in t && j < |t[p].kids|
    ensures t[p].kids[j] != right
  {
    assert KidOk(t, recs, left, right, p, j);
  }

  /** The children of other nodes ... */
  lemma LinkDownOther(t: map<int, Node>, recs: Records, left: int, right: int, p: int, nd: Node, b: int, j: nat)
    requires Down(t, recs, left, right) && Pending(t, left, right) && right != -1 && -1 !in t
    requires p in t && p == t[left].parent && nd == t[p].(keys := nd.keys, kids := nd.kids)
    requires b in t && b != p && j < |t[b].kids|
    ensures KidOk(t[p := nd], recs, -1, -1, b, j)
  {
    assert KidOk(t, recs, left, right, b, j);
  }

  /** ... and those of the node that gets the pending page. */
  lemma LinkDownHere(t: map<int, Node>, recs: Records, left: int, right: int, p: int, i: nat, x: RID, nd: Node, j: nat)
    requires Down(t, recs, left, right) && Pending(t, left, right) && right != -1 && -1 !in t
    requires p in t && p == t[left].parent && |t[p].kids| == |t[p].keys| + 1
    requires i < |t[p].kids| && t[p].kids[i] == left
    requires Rk(recs, x) == t[right].lo
    requires nd == t[p].(keys := Inserted(t[p].keys, i, x), kids := Inserted(t[p].kids, i + 1, right))
    requires j < |nd.kids|
    ensures KidOk(t[p := nd], recs, -1, -1, p, j)
  {
    hide Inserted, Rk;
    InsertAt(t[p].keys, i, x);
    InsertAt(t[p].kids, i + 1, right);
    assert KidOk(t, recs, left, right, p, i);
    if j != i + 1 {
      assert KidOk(t, recs, left, right, p, if j <= i then j else j - 1);
      assert j != i ==> t[p].kids[if j <= i then j else j - 1] != left;
    }
  }

  lemma LinkUp(t: map<int, Node>, root: int, right: int, p: int, nd: Node)
    requires Up(t, root, right) && right != -1 && -1 !in t
    requires p in t && right in t && p == t[right].parent && nd.parent == t[p].parent
    requires forall c :: c in nd.kids <==> c in t[p].kids || c == right
    ensures Up(t[p := nd], root, -1)
  {
  }

  lemma LinkOk(g: Tree, recs: Records, left: int, right: int, extra: set<RID>, p: int, i: nat, x: RID)
    requires Core(g, recs, left, right, extra) && right != -1 && left != g.root
    requires p in g.nodes && p == g.nodes[left].parent && |g.nodes[left].keys| > 0 && |g.nodes[right].keys| > 0
    requires x in extra && x in recs && Rk(recs, x) == g.nodes[right].lo && recs[x].value.None?
    requires i < |g.nodes[p].kids| && g.nodes[p].kids[i] == left
    ensures i <= |g.nodes[p].keys|
    ensures Core(Link(g, p, i, x, right), recs, -1, -1, extra - {x})
  {
    hide Inserted, Sorted, Within, Down, Owned, Up, Rk;
    LinkGap(g, recs, left, right, extra, p, i, Rk(recs, x));
    assert NodeOk(g.nodes[p], recs);
    InsertSorted(g.nodes[p].keys, recs, i, x, g.nodes[p].lo, g.nodes[p].hi, false);
    InsertAt(g.nodes[p].keys, i, x);
    InsertAt(g.nodes[p].kids, i + 1, right);
    LinkDown(g.nodes, recs, left, right, p, i, x, Link(g, p, i, x, right).nodes[p]);
    LinkUp(g.nodes, g.root, right, p, Link(g, p, i, x, right).nodes[p]);
    OwnRecord(g.nodes, g.owner, recs, extra, p, x, Link(g, p, i, x, right).nodes, Inserted(g.nodes[p].keys, i, x));
  }

  // ---- the root was split: a new root `np` over both halves

  function NewRoot(g: Tree, np: int, x: RID, right: int): Tree
    requires g.root in g.nodes && right in g.nodes
  {
    var nd := Node(-1, [x], [g.root, right], g.nodes[g.root].lvl + 1, 0.0, 1.0);
    Tree(
      np,
      g.nodes[g.root := g.nodes[g.root].(parent := np)][right := g.nodes[right].(parent := np)][np := nd],
      g.owner[x := np],
      g.lost)
  }

  lemma NewRootLinks(t: map<int, Node>, recs: Records, root: int, right: int, np: int, x: RID, t': map<int, Node>)
    requires Down(t, recs, root, right) && Up(t, root, right) && Pending(t, root, right) && RootOk(t, root, root, right)
    requires right != -1 && np !in t && np != -1 && -1 !in t && Rk(recs, x) == t[right].lo
    requires t' == t[root := t[root].(parent := np)][right := t[right].(parent := np)][np := Node(-1, [x],
      [root, right], t[root].lvl + 1, 0.0, 1.0)]
    ensures Down(t', recs, -1, -1) && Up(t', np, -1)
  {
    forall b, j | b in t' && 0 <= j < |t'[b].kids| ensures KidOk(t', recs, -1, -1, b, j) {
      if b != np {
        assert KidOk(t, recs, root, right, b, j);
      }
    }
    assert t'[np].kids[0] == root && t'[np].kids[1] == right;
    forall c | c in t' && c != np ensures t'[c].parent in t' && c in t'[t'[c].parent].kids {
      if c != root && c != right {
        assert t[c].parent in t && c in t[t[c].parent].kids;
      }
    }
  }

  lemma SingleKey(recs: Records, x: RID)
    requires x in recs
    ensures Sorted([x], recs)
    ensures forall lo, hi :: lo < Rk(recs, x) < hi ==> Within([x], recs, lo, hi, recs[x].value.Some?)
  {
  }

  lemma NewRootOk(g: Tree, recs: Records, right: int, extra: set<RID>, np: int, x: RID)
    requires Core(g, recs, g.root, right, extra) && right != -1
    requires x in extra && x in recs && Rk(recs, x) == g.nodes[right].lo && recs[x].value.None?
      && 0.0 < Rk(recs, x) < 1.0
    requires np !in g.nodes && np >= 1
    ensures Core(NewRoot(g, np, x, right), recs, -1, -1, extra - {x})
  {
    var g' := NewRoot(g, np, x, right);
    NewRootNodes(g, recs, right, extra, np, x);
    hide Nodes, RootOk, Down, Owned, Up, Rk, Pending;
    NewRootLinks(g.nodes, recs, g.root, right, np, x, g'.nodes);
    NewRootOwned(g, recs, extra, np, x, right);
  }

  lemma NewRootOwned(g: Tree, recs: Records, extra: set<RID>, np: int, x: RID, right: int)
    requires Owned(g.nodes, g.owner, recs, extra) && x in extra
    requires g.root in g.nodes && right in g.nodes && np !in g.nodes
    ensures Owned(NewRoot(g, np, x, right).nodes, NewRoot(g, np, x, right).owner, recs, extra - {x})
  {
    hide Owned;
    OwnRecord(g.nodes, g.owner, recs, extra, np, x, NewRoot(g, np, x, right).nodes, [x]);
  }

  lemma NewRootNodes(g: Tree, recs: Records, right: int, extra: set<RID>, np: int, x: RID)
    requires Core(g, recs, g.root, right, extra) && right != -1
    requires x in recs && recs[x].value.None? && 0.0 < Rk(recs, x) < 1.0
    requires np !in g.nodes && np >= 1
    ensures Nodes(NewRoot(g, np, x, right).nodes, recs)
    ensures RootOk(NewRoot(g, np, x, right).nodes, np, -1, -1)
    ensures -1 !in g.nodes && right in g.nodes
  {
    SingleKey(recs, x);
    hide Down, Owned, Up, Rk, Sorted, Within;
  }

  // ---- inner node `a` is cut at key n: that key moves out, page `y` takes the rest

  function Reparent(t: map<int, Node>, kids: seq<int>, p: int): map<int, Node> {
    map c | c in t :: if c in kids then t[c].(parent := p) else t[c]
  }

  function CutInner(g: Tree, recs: Records, a: int, y: int, n: nat): Tree
    requires a in g.nodes && n < |g.nodes[a].keys| && |g.nodes[a].kids| == |g.nodes[a].keys| + 1
    requires g.nodes[a].keys[n] in recs
  {
    var nd := g.nodes[a];
    var r := nd.keys[n];
    var cut := recs[r].rank;
    Tree(
      g.root,
      Reparent(g.nodes, nd.kids[n + 1..], y)
        [a := nd.(keys := nd.keys[..n], kids := nd.kids[..n + 1], hi := cut)]
        [y := nd.(keys := nd.keys[n + 1..], kids := nd.kids[n + 1..], lo := cut)],
      map q | q in g.owner && q != r :: if q in nd.keys[n + 1..] then y else g.owner[q],
      g.lost)
  }

  lemma InnerCut(nd: Node, recs: Records, n: nat)
    requires NodeOk(nd, recs) && n < |nd.keys|
    ensures nd.keys[n] in recs && nd.lo <= recs[nd.keys[n]].rank < nd.hi
      && (recs[nd.keys[n]].value.Some? <==> nd.lvl == 0)
    ensures Sorted(nd.keys[..n], recs) && Sorted(nd.keys[n + 1..], recs)
    ensures Within(nd.keys[..n], recs, nd.lo, recs[nd.keys[n]].rank, nd.lvl == 0)
    ensures Within(nd.keys[n + 1..], recs, recs[nd.keys[n]].rank, nd.hi, nd.lvl == 0)
    ensures forall r :: r in nd.keys <==> r in nd.keys[..n] || r == nd.keys[n] || r in nd.keys[n + 1..]
    ensures nd.keys[n] !in nd.keys[..n] && nd.keys[n] !in nd.keys[n + 1..]
    ensures forall r :: r in nd.keys[..n] ==> r !in nd.keys[n + 1..]
  {
    hide Sorted, Within, Rk;
    InnerCutMembers(nd.keys, recs, n);
    assert nd.keys[0..n] == nd.keys[..n] && nd.keys[n + 1..|nd.keys|] == nd.keys[n + 1..];
    SubKeys(nd.keys, recs, nd.lo, nd.hi, nd.lvl == 0, 0, n);
    SubKeys(nd.keys, recs, nd.lo, nd.hi, nd.lvl == 0, n + 1, |nd.keys|);
    KeyWithin(nd.keys, recs, nd.lo, nd.hi, nd.lvl == 0, n);
  }

  lemma KeyWithin(keys: seq<RID>, recs: Records, lo: real, hi: real, leaf: bool, n: nat)
    requires Within(keys, recs, lo, hi, leaf) && n < |keys|
    ensures keys[n] in recs && recs[keys[n]].rank == Rk(recs, keys[n])
    ensures lo <= Rk(recs, keys[n]) < hi && (recs[keys[n]].value.Some? <==> leaf)
  {
    assert keys[n] in keys;
  }

  lemma InnerCutMembers(keys: seq<RID>, recs: Records, n: nat)
    requires Sorted(keys, recs) && n < |keys|
    ensures forall r :: r in keys <==> r in keys[..n] || r == keys[n] || r in keys[n + 1..]
    ensures keys[n] !in keys[..n] && keys[n] !in keys[n + 1..]
    ensures forall r :: r in keys[..n] ==> r !in keys[n + 1..]
  {
    Halves(keys, recs, n);
    Halves(keys[n..], recs, 1);
    assert keys[n..][1..] == keys[n + 1..] && keys[n..][..1] == [keys[n]];
  }

  /** Children hang under one parent only, one level up. */
  lemma KidsOf(t: map<int, Node>, recs: Records, left: int, right: int, a: int)
    requires Down(t, recs, left, right) && a in t
    ensures forall c :: c in t[a].kids ==>
      c in t && t[c].parent == a && t[c].lvl + 1 == t[a].lvl && c != a && c != right
  {
    forall c | c in t[a].kids ensures c in t && t[c].parent == a && t[c].lvl + 1 == t[a].lvl && c != right {
      var i :| 0 <= i < |t[a].kids| && t[a].kids[i] == c;
      assert KidOk(t, recs, left, right, a, i);
    }
  }

  /** `L` and `R` are node `nd` cut at key `n`, which neither keeps. */
  ghost predicate CutAt(nd: Node, recs: Records, n: nat, L: Node, R: Node) {
    && n < |nd.keys| && |nd.kids| == |nd.keys| + 1
    && |L.keys| == n && |L.kids| == n + 1 && |R.keys| == |nd.keys| - n - 1 && |R.kids| == |nd.kids| - n - 1
    && (forall i :: 0 <= i < |L.keys| ==> L.keys[i] == nd.keys[i])
    && (forall i :: 0 <= i < |L.kids| ==> L.kids[i] == nd.kids[i])
    && (forall i :: 0 <= i < |R.keys| ==> R.keys[i] == nd.keys[n + 1 + i])
    && (forall i :: 0 <= i < |R.kids| ==> R.kids[i] == nd.kids[n + 1 + i])
    && L.lvl == R.lvl == nd.lvl && L.parent == R.parent == nd.parent
    && L.lo == nd.lo && R.hi == nd.hi && L.hi == R.lo == Rk(recs, nd.keys[n])
  }

  /** Page `a` was cut in two: `y` is new, and the children that went there know it. */
  ghost predicate CutTree(t: map<int, Node>, a: int, y: int, L: Node, R: Node, t': map<int, Node>) {
    && a in t && y !in t
    && t'.Keys == t.Keys + {y} && t'[a] == L && t'[y] == R
    && forall c :: c in t && c != a ==> t'[c] == if c in R.kids then t[c].(parent := y) else t[c]
  }

  lemma CutDown(t: map<int, Node>, recs: Records, a: int, y: int, n: nat, L: Node, R: Node, t': map<int, Node>)
    requires Down(t, recs, -1, -1) && -1 !in t && y != -1
    requires CutTree(t, a, y, L, R, t') && CutAt(t[a], recs, n, L, R)
    ensures Down(t', recs, a, y)
  {
    hide Rk, KidOk;
    KidsCut(t[a], recs, n, L, R);
    forall b, i | b in t && b != a && 0 <= i < |t[b].kids| ensures KidOk(t', recs, a, y, b, i) {
      CutDownOther(t, recs, a, y, L, R, t', b, i);
    }
    forall b | b in t && b != a ensures t'[b].kids == t[b].kids {
    }
    forall i | 0 <= i < |L.kids| ensures KidOk(t', recs, a, y, a, i) {
      CutDownLower(t, recs, a, y, n, L, R, t', i);
    }
    forall i | 0 <= i < |R.kids| ensures KidOk(t', recs, a, y, y, i) {
      CutDownUpper(t, recs, a, y, n, L, R, t', i);
    }
    CutDistinct(t[a], recs, n, L, R);
  }

  lemma CutDistinct(nd: Node, recs: Records, n: nat, L: Node, R: Node)
    requires CutAt(nd, recs, n, L, R) && Distinct(nd.kids)
    ensures Distinct(L.kids) && Distinct(R.kids)
  {
    hide Rk;
  }

  lemma CutDownLower(t: map<int, Node>, recs: Records, a: int, y: int, n: nat, L: Node, R: Node, t': map<int, Node>,
      i: nat)
    requires Down(t, recs, -1, -1) && -1 !in t && y != -1 && i < |L.kids|
    requires CutTree(t, a, y, L, R, t') && CutAt(t[a], recs, n, L, R)
    ensures KidOk(t', recs, a, y, a, i)
  {
    hide Rk;
    KidsOf(t, recs, -1, -1, a);
    assert KidOk(t, recs, -1, -1, a, i) && t[a].kids[i] in t[a].kids;
    forall j | 0 <= j < |R.kids| ensures R.kids[j] != L.kids[i] {
      assert t[a].kids[i] != t[a].kids[n + 1 + j];
    }
  }

  lemma CutDownUpper(t: map<int, Node>, recs: Records, a: int, y: int, n: nat, L: Node, R: Node, t': map<int, Node>,
      i: nat)
    requires Down(t, recs, -1, -1) && -1 !in t && y != -1 && i < |R.kids|
    requires CutTree(t, a, y, L, R, t') && CutAt(t[a], recs, n, L, R)
    ensures KidOk(t', recs, a, y, y, i)
  {
    hide Rk;
    KidsOf(t, recs, -1, -1, a);
    assert KidOk(t, recs, -1, -1, a, n + 1 + i) && t[a].kids[n + 1 + i] in t[a].kids;
    assert R.kids[i] in R.kids;
  }

  lemma CutDownOther(t: map<int, Node>, recs: Records, a: int, y: int, L: Node, R: Node, t': map<int, Node>, b: int,
      i: nat)
    requires Down(t, recs, -1, -1) && -1 !in t
    requires CutTree(t, a, y, L, R, t') && L.lo == t[a].lo && L.parent == t[a].parent && L.lvl == t[a].lvl
      && R.hi == t[a].hi
    requires forall c :: c in R.kids ==> c in t[a].kids
    requires b in t && b != a && i < |t[b].kids|
    ensures t'[b].kids == t[b].kids && KidOk(t', recs, a, y, b, i)
  {
    KidsOf(t, recs, -1, -1, a);
    assert KidOk(t, recs, -1, -1, b, i);
  }

  lemma KidsCut(nd: Node, recs: Records, n: nat, L: Node, R: Node)
    requires CutAt(nd, recs, n, L, R)
    ensures forall c :: c in nd.kids ==> c in L.kids || c in R.kids
    ensures forall c :: c in R.kids ==> c in nd.kids
  {
    hide Rk;
    forall c | c in nd.kids ensures c in L.kids || c in R.kids {
      var i :| 0 <= i < |nd.kids| && nd.kids[i] == c;
      assert if i <= n then L.kids[i] == c else R.kids[i - n - 1] == c;
    }
    forall c | c in R.kids ensures c in nd.kids {
      var i :| 0 <= i < |R.kids| && R.kids[i] == c;
    }
  }

  lemma CutUp(t: map<int, Node>, recs: Records, root: int, a: int, y: int, n: nat, L: Node, R: Node, t': map<int, Node>)
    requires Down(t, recs, -1, -1) && Up(t, root, -1) && RootOk(t, root, -1, -1) && -1 !in t && y != -1
    requires CutTree(t, a, y, L, R, t') && CutAt(t[a], recs, n, L, R)
    ensures Up(t', root, y) && RootOk(t', root, a, y)
  {
    hide Rk, KidOk, Down;
    KidsOf(t, recs, -1, -1, a);
    KidsCut(t[a], recs, n, L, R);
    hide CutAt;
    forall c | c in t' && c != root && c != y ensures t'[c].parent in t' && c in t'[t'[c].parent].kids {
      assert t[c].parent in t && c in t[t[c].parent].kids;
    }
  }

  lemma CutOwned(t: map<int, Node>, owner: map<RID, int>, recs: Records, extra: set<RID>, a: int, y: int, mid: RID,
                 lower: seq<RID>, upper: seq<RID>, t': map<int, Node>)
    requires Owned(t, owner, recs, extra) && a in t && y !in t
    requires forall r :: r in t[a].keys <==> r in lower || r == mid || r in upper
    requires mid !in lower && mid !in upper && forall r :: r in lower ==> r !in upper
    requires t'.Keys == t.Keys + {y} && t'[a].keys == lower && t'[y].keys == upper
    requires forall b :: b in t && b != a ==> t'[b].keys == t[b].keys
    ensures Owned(t', map r | r in owner && r != mid :: if r in upper then y else owner[r], recs, extra + {mid})
  {
    assert mid in t[a].keys;
  }

  lemma CutInnerOk(g: Tree, recs: Records, extra: set<RID>, a: int, y: int, n: nat)
    requires Core(g, recs, -1, -1, extra)
    requires a in g.nodes && g.nodes[a].lvl > 0 && n < |g.nodes[a].keys|
    requires y !in g.nodes && y >= 1
    ensures g.nodes[a].keys[n] in recs && |g.nodes[a].kids| == |g.nodes[a].keys| + 1
    ensures Core(CutInner(g, recs, a, y, n), recs, a, y, extra + {g.nodes[a].keys[n]})
  {
    assert NodeOk(g.nodes[a], recs);
    CutInnerNodes(g, recs, a, y, n);
    CutInnerOwned(g, recs, extra, a, y, n);
    var t' := CutInner(g, recs, a, y, n).nodes;
    hide Nodes, Down, Owned, Up, RootOk, CutTree, CutAt;
    CutDown(g.nodes, recs, a, y, n, t'[a], t'[y], t');
    CutUp(g.nodes, recs, g.root, a, y, n, t'[a], t'[y], t');
  }

  lemma CutInnerNodes(g: Tree, recs: Records, a: int, y: int, n: nat)
    requires Nodes(g.nodes, recs) && Down(g.nodes, recs, -1, -1)
    requires a in g.nodes && g.nodes[a].lvl > 0 && n < |g.nodes[a].keys|
    requires y !in g.nodes && y >= 1
    ensures g.nodes[a].keys[n] in recs && |g.nodes[a].kids| == |g.nodes[a].keys| + 1 && -1 !in g.nodes
    ensures
      var t' := CutInner(g, recs, a, y, n).nodes;
      && y in t' && a in t'
      && CutTree(g.nodes, a, y, t'[a], t'[y], t') && CutAt(g.nodes[a], recs, n, t'[a], t'[y])
      && Nodes(t', recs) && Pending(t', a, y)
  {
    assert NodeOk(g.nodes[a], recs);
    CutInnerHalves(g, recs, a, y, n);
    CutInnerShape(g, recs, a, y, n);
    hide CutInner, NodeOk, Down, Rk, CutTree;
    var t' := CutInner(g, recs, a, y, n).nodes;
    CutNodes(g.nodes, recs, a, y, t'[a], t'[y], t');
  }

  lemma CutInnerHalves(g: Tree, recs: Records, a: int, y: int, n: nat)
    requires a in g.nodes && NodeOk(g.nodes[a], recs) && g.nodes[a].lvl > 0 && n < |g.nodes[a].keys| && y !in g.nodes
    ensures g.nodes[a].keys[n] in recs
    ensures
      var t' := CutInner(g, recs, a, y, n).nodes;
      a in t' && y in t' && NodeOk(t'[a], recs) && NodeOk(t'[y], recs)
  {
    InnerCut(g.nodes[a], recs, n);
    hide Sorted, Within;
  }

  lemma CutNodes(t: map<int, Node>, recs: Records, a: int, y: int, L: Node, R: Node, t': map<int, Node>)
    requires Nodes(t, recs) && CutTree(t, a, y, L, R, t') && NodeOk(L, recs) && NodeOk(R, recs) && y >= 1
    ensures Nodes(t', recs)
  {
    hide Sorted, Within;
  }

  lemma CutInnerShape(g: Tree, recs: Records, a: int, y: int, n: nat)
    requires a in g.nodes && n < |g.nodes[a].keys| && |g.nodes[a].kids| == |g.nodes[a].keys| + 1
    requires g.nodes[a].keys[n] in recs && y !in g.nodes && Down(g.nodes, recs, -1, -1)
    ensures
      var t' := CutInner(g, recs, a, y, n).nodes;
      CutTree(g.nodes, a, y, t'[a], t'[y], t') && CutAt(g.nodes[a], recs, n, t'[a], t'[y]) && Pending(t', a, y)
  {
    KidsOf(g.nodes, recs, -1, -1, a);
    hide Down;
    var t' := CutInner(g, recs, a, y, n).nodes;
    CutInnerAt(g.nodes[a], recs, n, t'[a], t'[y]);
    hide CutAt;
  }

  lemma CutInnerAt(nd: Node, recs: Records, n: nat, L: Node, R: Node)
    requires n < |nd.keys| && |nd.kids| == |nd.keys| + 1 && nd.keys[n] in recs
    requires L == nd.(keys := nd.keys[..n], kids := nd.kids[..n + 1], hi := recs[nd.keys[n]].rank)
    requires R == nd.(keys := nd.keys[n + 1..], kids := nd.kids[n + 1..], lo := recs[nd.keys[n]].rank)
    ensures CutAt(nd, recs, n, L, R)
  {
  }

  lemma CutInnerOwned(g: Tree, recs: Records, extra: set<RID>, a: int, y: int, n: nat)
    requires Owned(g.nodes, g.owner, recs, extra)
    requires a in g.nodes && NodeOk(g.nodes[a], recs) && g.nodes[a].lvl > 0 && n < |g.nodes[a].keys|
    requires g.nodes[a].keys[n] in recs && y !in g.nodes
    ensures Owned(CutInner(g, recs, a, y, n).nodes, CutInner(g, recs, a, y, n).owner, recs,
      extra + {g.nodes[a].keys[n]})
  {
    var nd := g.nodes[a];
    InnerCut(nd, recs, n);
    hide Owned, NodeOk;
    CutOwned(g.nodes, g.owner, recs, extra, a, y, nd.keys[n], nd.keys[..n], nd.keys[n + 1..],
      CutInner(g, recs, a, y, n).nodes);
  }
}
