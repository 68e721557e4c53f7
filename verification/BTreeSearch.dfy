/** Why the descent from the root finds a key wherever it is. */
module BTreeSearch {
  import opened Common
  import opened BTreeModel

  /** The child that b_tree_search, b_tree_insert and b_tree_delete go to for a key of rank `q`:
      right of a separator that equals it. */
  ghost function Step(keys: seq<RID>, recs: Records, q: real, i: nat): nat {
    if i < |keys| && Rk(recs, keys[i]) == q then i + 1 else i
  }

  /** The descent stays on the pages whose range contains the key. */
  lemma Route(g: Tree, recs: Records, extra: set<RID>, a: int, q: real, i: nat)
    requires Core(g, recs, -1, -1, extra)
    requires a in g.nodes && g.nodes[a].lvl > 0 && g.nodes[a].lo <= q < g.nodes[a].hi
    requires LowerBound(g.nodes[a].keys, recs, q, i)
    ensures
      var j := Step(g.nodes[a].keys, recs, q, i);
      && j < |g.nodes[a].kids| && g.nodes[a].kids[j] in g.nodes
      && var c := g.nodes[g.nodes[a].kids[j]];
         c.lo <= q < c.hi && c.lvl + 1 == g.nodes[a].lvl
  {
    hide Owned, Up;
    var nd, t := g.nodes[a], g.nodes;
    assert NodeOk(nd, recs);
    var j := Step(nd.keys, recs, q, i);
    assert -1 !in t;
    assert KidOk(t, recs, -1, -1, a, j);
    assert i + 1 < |nd.keys| ==> Rk(recs, nd.keys[i]) < Rk(recs, nd.keys[i + 1]);
  }

  lemma NodeFacts(g: Tree, recs: Records, left: int, right: int, extra: set<RID>, a: int)
    requires Core(g, recs, left, right, extra) && a in g.nodes
    ensures NodeOk(g.nodes[a], recs) && a >= 1
    ensures forall r :: r in g.nodes[a].keys ==> r in recs && r in g.owner && g.owner[r] == a
    ensures forall r :: r in g.owner ==> r in recs
  {
  }

  lemma RootFacts(g: Tree, recs: Records, extra: set<RID>)
    requires Core(g, recs, -1, -1, extra)
    ensures g.root in g.nodes && g.nodes[g.root].lo == 0.0 && g.nodes[g.root].hi == 1.0 && g.nodes[g.root].parent == -1
  {
  }

  lemma {:induction false} MaxLevel(t: map<int, Node>, s: set<int>) returns (top: nat)
    requires s <= t.Keys
    ensures forall a :: a in s ==> t[a].lvl <= top
  {
    if a :| a in s {
      top := MaxLevel(t, s - {a});
      if top < t[a].lvl {
        top := t[a].lvl;
      }
    } else {
      top := 0;
    }
  }

  lemma ParentOf(t: map<int, Node>, recs: Records, root: int, c: int)
    requires Down(t, recs, -1, -1) && Up(t, root, -1) && -1 !in t && c in t && c != root
    ensures t[c].parent in t && t[t[c].parent].lvl == t[c].lvl + 1
    ensures exists i ::
      0 <= i < |t[t[c].parent].kids| && t[t[c].parent].kids[i] == c && KidOk(t, recs, -1, -1, t[c].parent, i)
  {
    var p := t[c].parent;
    var i :| 0 <= i < |t[p].kids| && t[p].kids[i] == c;
    assert KidOk(t, recs, -1, -1, p, i);
  }

  /** Only the root is on the root's level, and nothing is above it. */
  lemma {:induction false} BelowRoot(t: map<int, Node>, recs: Records, root: int, c: int, top: nat)
    requires Down(t, recs, -1, -1) && Up(t, root, -1) && -1 !in t && root in t && c in t && c != root
    requires forall a :: a in t ==> t[a].lvl <= top
    ensures t[c].lvl < t[root].lvl
    decreases top - t[c].lvl
  {
    hide Down, Up;
    ParentOf(t, recs, root, c);
    if t[c].parent != root {
      BelowRoot(t, recs, root, t[c].parent, top);
    }
  }

  /** On each level the ranges are disjoint. */
  lemma {:induction false} OnePage(t: map<int, Node>, recs: Records, root: int, a: int, b: int, q: real, top: nat)
    requires Nodes(t, recs) && Down(t, recs, -1, -1) && Up(t, root, -1) && -1 !in t && root in t && a in t && b in t
    requires t[a].lvl == t[b].lvl && t[a].lo <= q < t[a].hi && t[b].lo <= q < t[b].hi
    requires forall c :: c in t ==> t[c].lvl <= top
    ensures a == b
    decreases top - t[a].lvl
  {
    hide Nodes, Down, Up, KidOk;
    if a == root && b != root {
      BelowRoot(t, recs, root, b, top);
    } else if a != root && b == root {
      BelowRoot(t, recs, root, a, top);
    } else if a != root {
      ParentOf(t, recs, root, a);
      ParentOf(t, recs, root, b);
      var pa, pb := t[a].parent, t[b].parent;
      KidRange(t, recs, pa, a, q);
      KidRange(t, recs, pb, b, q);
      OnePage(t, recs, root, pa, pb, q, top);
      OneKid(t, recs, pa, a, b, q);
    }
  }

  lemma KidRange(t: map<int, Node>, recs: Records, p: int, c: int, q: real)
    requires Nodes(t, recs) && -1 !in t && p in t && c in t && t[c].lo <= q < t[c].hi
    requires exists i :: 0 <= i < |t[p].kids| && t[p].kids[i] == c && KidOk(t, recs, -1, -1, p, i)
    ensures t[p].lo <= q < t[p].hi
  {
    var i :| 0 <= i < |t[p].kids| && t[p].kids[i] == c && KidOk(t, recs, -1, -1, p, i);
    assert NodeOk(t[p], recs);
    NodeBounds(t[p], recs, i);
  }

  lemma OneKid(t: map<int, Node>, recs: Records, p: int, a: int, b: int, q: real)
    requires Nodes(t, recs) && -1 !in t && p in t && a in t && b in t && t[a].lo <= q < t[a].hi
      && t[b].lo <= q < t[b].hi
    requires exists i :: 0 <= i < |t[p].kids| && t[p].kids[i] == a && KidOk(t, recs, -1, -1, p, i)
    requires exists i :: 0 <= i < |t[p].kids| && t[p].kids[i] == b && KidOk(t, recs, -1, -1, p, i)
    ensures a == b
  {
    var i :| 0 <= i < |t[p].kids| && t[p].kids[i] == a && KidOk(t, recs, -1, -1, p, i);
    var j :| 0 <= j < |t[p].kids| && t[p].kids[j] == b && KidOk(t, recs, -1, -1, p, j);
    assert NodeOk(t[p], recs);
    OneSlot(t[p], recs, i, j, q);
  }

  lemma SlotOrder(nd: Node, recs: Records, i: nat, j: nat)
    requires NodeOk(nd, recs) && nd.lvl > 0 && i < j < |nd.kids|
    ensures Hi(nd, recs, i) <= Lo(nd, recs, j)
  {
    assert Rk(recs, nd.keys[i]) <= Rk(recs, nd.keys[j - 1]);
  }

  lemma OneSlot(nd: Node, recs: Records, i: nat, j: nat, q: real)
    requires NodeOk(nd, recs) && i < |nd.kids| && j < |nd.kids| && nd.lvl > 0
    requires Lo(nd, recs, i) <= q < Hi(nd, recs, i) && Lo(nd, recs, j) <= q < Hi(nd, recs, j)
    ensures i == j
  {
    hide NodeOk, Lo, Hi;
    if i < j {
      SlotOrder(nd, recs, i, j);
    } else if j < i {
      SlotOrder(nd, recs, j, i);
    }
  }

  /** A leaf whose range contains the key of an entry is the leaf that holds the entry, even
      when separators equal to that key, or to deleted keys, were met on the way. */
  lemma EntryInLeaf(g: Tree, recs: Records, extra: set<RID>, a: int, r: RID)
    requires Core(g, recs, -1, -1, extra)
    requires r in g.owner && r in recs && recs[r].value.Some?
    requires a in g.nodes && g.nodes[a].lvl == 0 && g.nodes[a].lo <= Rk(recs, r) < g.nodes[a].hi
    ensures g.owner[r] == a && r in g.nodes[a].keys
  {
    var t := g.nodes;
    var b := g.owner[r];
    assert b in t && r in t[b].keys;
    assert NodeOk(t[b], recs);
    assert -1 !in t;
    hide NodeOk, Down, Up, KidOk, Owned, References;
    var top := MaxLevel(t, t.Keys);
    OnePage(t, recs, g.root, a, b, Rk(recs, r), top);
  }

  /** Missing the key in the right leaf means that no entry has it. */
  lemma AbsentEntry(g: Tree, recs: Records, extra: set<RID>, a: int, q: real, i: nat)
    requires Core(g, recs, -1, -1, extra)
    requires a in g.nodes && g.nodes[a].lvl == 0 && g.nodes[a].lo <= q < g.nodes[a].hi
    requires LowerBound(g.nodes[a].keys, recs, q, i) && (i < |g.nodes[a].keys| ==> Rk(recs, g.nodes[a].keys[i]) != q)
    ensures forall r :: r in g.owner && r in recs && recs[r].value.Some? ==> recs[r].rank != q
  {
    NodeFacts(g, recs, -1, -1, extra, a);
    forall r | r in g.owner && r in recs && recs[r].value.Some? ensures recs[r].rank != q {
      if recs[r].rank == q {
        EntryInLeaf(g, recs, extra, a, r);
        InBounds(g.nodes[a].keys, recs, q, i, r);
      }
    }
  }

  lemma EmptyRoot(g: Tree, recs: Records)
    requires WellFormed(g, recs, {})
    ensures g.root in g.nodes && (g.nodes[g.root].keys == [] ==>
      forall r :: r in recs && recs[r].value.Some? ==> !(0.0 <= recs[r].rank < 1.0))
  {
    RootFacts(g, recs, {});
    OwnedKeys(g, recs, {});
    if g.nodes[g.root].keys == [] {
      forall r | r in recs && recs[r].value.Some? && 0.0 <= recs[r].rank < 1.0 ensures false {
        EntryInLeaf(g, recs, {}, g.root, r);
      }
    }
  }

  lemma InBounds(keys: seq<RID>, recs: Records, q: real, i: nat, r: RID)
    requires Sorted(keys, recs) && LowerBound(keys, recs, q, i) && r in keys && Rk(recs, r) == q
    ensures i < |keys| && keys[i] == r
  {
    var j :| 0 <= j < |keys| && keys[j] == r;
  }

  // ---- every page of the tree is reachable, and all leaves are equally deep

  ghost predicate IsPath(t: map<int, Node>, path: seq<int>) {
    && |path| > 0
    && (forall i :: 0 <= i < |path| ==> path[i] in t)
    && (forall i :: 0 <= i < |path| - 1 ==> path[i + 1] in t[path[i]].kids)
  }

  lemma {:induction false} PathFromRoot(t: map<int, Node>, recs: Records, root: int, a: int, top: nat)
      returns (path: seq<int>)
    requires Down(t, recs, -1, -1) && Up(t, root, -1) && -1 !in t && root in t && a in t
    requires forall c :: c in t ==> t[c].lvl <= top
    ensures IsPath(t, path) && path[0] == root && path[|path| - 1] == a
    ensures |path| == t[root].lvl - t[a].lvl + 1
    decreases top - t[a].lvl
  {
    hide Down, KidOk;
    if a == root {
      path := [a];
    } else {
      ParentOf(t, recs, root, a);
      var up := PathFromRoot(t, recs, root, t[a].parent, top);
      path := up + [a];
    }
  }

  /** Every page of the tree is reached from the root, a leaf in exactly as many steps as any
      other leaf. */
  lemma Reachable(g: Tree, recs: Records, extra: set<RID>, a: int) returns (path: seq<int>)
    requires Core(g, recs, -1, -1, extra) && a in g.nodes
    ensures IsPath(g.nodes, path) && path[0] == g.root && path[|path| - 1] == a
    ensures g.nodes[a].kids == [] ==> |path| == g.nodes[g.root].lvl + 1
  {
    assert -1 !in g.nodes && NodeOk(g.nodes[a], recs);
    hide Owned, Down, Up;
    var top := MaxLevel(g.nodes, g.nodes.Keys);
    path := PathFromRoot(g.nodes, recs, g.root, a, top);
  }
}
