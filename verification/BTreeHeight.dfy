/** The height of the tree: every page keeps its distance to the leaves, so that the height
    changes only when the root does. */
module BTreeHeight {
  import opened Common
  import opened BTreeModel
  import opened BTreePages
  import opened BTreeDeletion
  import opened BTreeBorrow
  import opened BTreeSteps
  import opened BTreeShrink

  /** The pages of `g` are in `g'` at the same level, the root is the same, and so are the lost
      pages. */
  ghost predicate Extends(g: Tree, g': Tree) {
    g'.root == g.root && g'.lost == g.lost && forall c :: c in g.nodes ==>
      c in g'.nodes && g'.nodes[c].lvl == g.nodes[c].lvl
  }

  /** As Extends, except that a new page may have become the root over the old one. */
  ghost predicate Grows(g: Tree, g': Tree) {
    && g'.lost == g.lost
    && (forall c :: c in g.nodes ==> c in g'.nodes && g'.nodes[c].lvl == g.nodes[c].lvl)
    && (g'.root != g.root ==>
          && g.root in g'.nodes && g'.root in g'.nodes && g'.root !in g.nodes
          && g'.nodes[g'.root].lvl == g'.nodes[g.root].lvl + 1)
  }

  lemma ExtendsSelf(g: Tree)
    ensures Extends(g, g) && Grows(g, g)
  {
  }

  lemma ExtendsOn(g: Tree, g1: Tree, g2: Tree)
    requires Extends(g, g1) && Extends(g1, g2)
    ensures Extends(g, g2) && Grows(g, g2)
  {
  }

  lemma TopKept(g: Tree, g': Tree, top: nat)
    requires Extends(g', g) && forall c :: c in g.nodes ==> g.nodes[c].lvl <= top
    ensures forall c :: c in g'.nodes ==> g'.nodes[c].lvl <= top
  {
  }

  lemma Taller(g: Tree, g1: Tree, g': Tree)
    requires Extends(g, g1) && Grows(g1, g')
    ensures Grows(g, g')
  {
  }

  lemma Shorter(g: Tree, g1: Tree, g': Tree)
    requires Grows(g', g1) && Extends(g1, g)
    ensures Grows(g', g)
  {
  }

  lemma ShedMore(g: Tree, g1: Tree, g': Tree, free: seq<int>, len: nat, free1: seq<int>, len1: nat, free': seq<int>,
      len': nat)
    requires Shed(g, free, len, g1, free1, len1) && Shed(g1, free1, len1, g', free', len')
    requires Grows(g', g1) && Extends(g1, g)
    ensures Shed(g, free, len, g', free', len')
  {
    assert forall c :: c in g'.nodes.Keys ==> c in g1.nodes.Keys;
    assert forall c :: c in g1.nodes.Keys ==> c in g.nodes.Keys;
    ShedOn(g, free, len, g1, free1, len1, g', free', len');
  }

  lemma AddKeyExtends(g: Tree, a: int, i: nat, r: RID)
    requires a in g.nodes && i <= |g.nodes[a].keys|
    ensures Extends(g, AddKey(g, a, i, r))
  {
  }

  lemma SplitLeafExtends(g: Tree, recs: Records, a: int, y: int, i: nat, r: RID)
    requires a in g.nodes && i <= |g.nodes[a].keys| == 2 * DEGREE - 1 && Inserted(g.nodes[a].keys, i, r)[DEGREE] in recs
    requires y !in g.nodes
    ensures Extends(g, SplitLeaf(g, recs, a, y, i, r))
  {
    InsertAt(g.nodes[a].keys, i, r);
    hide Inserted;
  }

  lemma LinkExtends(g: Tree, p: int, i: nat, x: RID, right: int)
    requires p in g.nodes && i <= |g.nodes[p].keys| && i < |g.nodes[p].kids|
    ensures Extends(g, Link(g, p, i, x, right))
  {
  }

  lemma SplitInnerExtends(g: Tree, recs: Records, p: int, i: nat, x: RID, right: int, y: int)
    requires p in g.nodes && i < |g.nodes[p].kids| == 2 * DEGREE && |g.nodes[p].keys| == 2 * DEGREE - 1
    requires Inserted(g.nodes[p].keys, i, x)[DEGREE - 1] in recs && y !in g.nodes
    ensures Extends(g, SplitInner(g, recs, p, i, x, right, y))
  {
    InsertAt(g.nodes[p].keys, i, x);
    InsertAt(g.nodes[p].kids, i + 1, right);
    hide Inserted;
  }

  lemma NewRootGrows(g: Tree, np: int, x: RID, right: int)
    requires g.root in g.nodes && right in g.nodes && np !in g.nodes
    ensures Grows(g, NewRoot(g, np, x, right))
  {
  }

  lemma RemoveKeyExtends(g: Tree, a: int, i: nat)
    requires a in g.nodes && i < |g.nodes[a].keys|
    ensures Extends(RemoveKey(g, a, i), g) && RemoveKey(g, a, i).nodes.Keys == g.nodes.Keys
  {
  }

  lemma LeavesRecutExtends(g: Tree, recs: Records, p: int, k: nat, n: nat, x: RID, g': Tree)
    requires LeavesRecut(g, recs, p, k, n, x, g')
    requires g.nodes[g.nodes[p].kids[k]].lvl == g.nodes[g.nodes[p].kids[k + 1]].lvl
    ensures Extends(g', g) && g'.nodes.Keys == g.nodes.Keys
  {
    hide JoinedKeys;
  }

  lemma InnerRecutExtends(g: Tree, recs: Records, p: int, k: nat, n: nat, g': Tree)
    requires InnerRecut(g, recs, p, k, n, g')
    requires g.nodes[g.nodes[p].kids[k]].lvl == g.nodes[g.nodes[p].kids[k + 1]].lvl
    ensures Extends(g', g) && g'.nodes.Keys == g.nodes.Keys
  {
    hide InnerKeys, InnerKids;
  }

  lemma HalfMergedExtends(g: Tree, p: int, k: nat)
    requires Mergeable(g.nodes, p, k)
    ensures Extends(HalfMerged(g, p, k), g)
    ensures HalfMerged(g, p, k).nodes.Keys == g.nodes.Keys - {g.nodes[p].kids[k + 1]}
  {
    hide Removed, MergeOwners;
  }

  lemma DroppedExtends(g: Tree, p: int, k: nat)
    requires p in g.nodes && k < |g.nodes[p].keys| && k + 1 < |g.nodes[p].kids|
    ensures Extends(Dropped(g, p, k), g) && Dropped(g, p, k).nodes.Keys == g.nodes.Keys
  {
    hide Removed;
  }

  /** A collapse is the reverse of growth: the root goes and its only child takes its place. */
  lemma CollapseShrinks(g: Tree, recs: Records, extra: set<RID>)
    requires Core(g, recs, -1, -1, extra) && g.nodes[g.root].lvl > 0 && g.nodes[g.root].keys == []
    ensures |g.nodes[g.root].kids| == 1 && g.nodes[g.root].kids[0] in g.nodes && g.nodes[g.root].kids[0] != g.root
    ensures Grows(Collapse(g), g) && Collapse(g).nodes.Keys == g.nodes.Keys - {g.root}
  {
    CollapseOk(g, recs, extra);
    assert KidOk(g.nodes, recs, -1, -1, g.root, 0);
  }
}
