/** What an operation does to the entries in the leaves, where the rest of the tree only makes
    room for them. */
module BTreeLeaves {
  import opened Common
  import opened BTreeModel
  import opened BTreeDeletion
  import opened BTreeBorrow
  import opened BTreeSteps
  import opened BTreeShrink

  /** The leaves and their entries. */
  ghost function Leaves(g: Tree): map<int, seq<RID>> {
    map a | a in g.nodes && g.nodes[a].lvl == 0 :: g.nodes[a].keys
  }

  /** The entry `r` entered leaf `a` at position `i`.  If there was room nothing else changed;
      otherwise the first DEGREE entries stayed, the others went to a new leaf, and no other leaf
      changed. */
  ghost predicate Entered(g: Tree, r: RID, a: int, i: nat, g': Tree) {
    && a in Leaves(g) && i <= |Leaves(g)[a]|
    && if |Leaves(g)[a]| < 2 * DEGREE - 1 then g' == AddKey(g, a, i, r) else exists y :: Parted(g, r, a, i, y, g')
  }

  ghost predicate Parted(g: Tree, r: RID, a: int, i: nat, y: int, g': Tree) {
    && a in Leaves(g) && i <= |Leaves(g)[a]| == 2 * DEGREE - 1 && y !in g.nodes
    && var all := Inserted(Leaves(g)[a], i, r);
       Leaves(g') == Leaves(g)[a := all[..DEGREE]][y := all[DEGREE..]]
  }

  lemma PartedLater(g: Tree, r: RID, a: int, i: nat, y: int, g1: Tree, g': Tree)
    requires Parted(g, r, a, i, y, g1) && Leaves(g') == Leaves(g1)
    ensures Entered(g, r, a, i, g')
  {
    assert Parted(g, r, a, i, y, g');
  }

  lemma SplitLeafParts(g: Tree, recs: Records, a: int, y: int, i: nat, r: RID)
    requires a in g.nodes && i <= |g.nodes[a].keys| == 2 * DEGREE - 1 && Inserted(g.nodes[a].keys, i, r)[DEGREE] in recs
    requires y !in g.nodes && g.nodes[a].lvl == 0
    ensures Parted(g, r, a, i, y, SplitLeaf(g, recs, a, y, i, r))
  {
    InsertAt(g.nodes[a].keys, i, r);
    hide Inserted;
  }

  lemma LinkLeaves(g: Tree, p: int, i: nat, x: RID, right: int)
    requires p in g.nodes && i <= |g.nodes[p].keys| && i < |g.nodes[p].kids| && g.nodes[p].lvl > 0
    ensures Leaves(Link(g, p, i, x, right)) == Leaves(g)
  {
  }

  lemma SplitInnerLeaves(g: Tree, recs: Records, p: int, i: nat, x: RID, right: int, y: int)
    requires p in g.nodes && i < |g.nodes[p].kids| == 2 * DEGREE && |g.nodes[p].keys| == 2 * DEGREE - 1
    requires Inserted(g.nodes[p].keys, i, x)[DEGREE - 1] in recs && y !in g.nodes && g.nodes[p].lvl > 0
    ensures Leaves(SplitInner(g, recs, p, i, x, right, y)) == Leaves(g)
  {
    InsertAt(g.nodes[p].keys, i, x);
    InsertAt(g.nodes[p].kids, i + 1, right);
    hide Inserted;
  }

  lemma NewRootLeaves(g: Tree, np: int, x: RID, right: int)
    requires g.root in g.nodes && right in g.nodes && np !in g.nodes
    ensures Leaves(NewRoot(g, np, x, right)) == Leaves(g)
  {
  }

  // ---- deletion

  ghost function KeysOf(g: Tree, a: int): seq<RID> {
    if a in g.nodes then g.nodes[a].keys else []
  }

  /** Leaves k and k+1 below page p shared out their entries anew: the first n went left. */
  ghost predicate Shared(g: Tree, p: int, k: nat, n: nat, g': Tree) {
    && p in g.nodes && k + 1 < |g.nodes[p].kids|
    && var l, r := g.nodes[p].kids[k], g.nodes[p].kids[k + 1];
       var both := KeysOf(g, l) + KeysOf(g, r);
       n <= |both| && Leaves(g') == Leaves(g)[l := both[..n]][r := both[n..]]
  }

  /** Leaves k and k+1 below page p became one. */
  ghost predicate Joined(g: Tree, p: int, k: nat, g': Tree) {
    && p in g.nodes && k + 1 < |g.nodes[p].kids|
    && var l, r := g.nodes[p].kids[k], g.nodes[p].kids[k + 1];
       Leaves(g') == (Leaves(g) - {r})[l := KeysOf(g, l) + KeysOf(g, r)]
  }

  /** Leaf `a`, child `index` of its parent, was an entry short.  It got the last entry of the
      leaf before it or else the first of the one behind it; if neither had one to spare it was
      joined with the leaf before it, or with the one behind it if it was the first child. */
  ghost predicate Evened(g: Tree, a: int, index: nat, g': Tree) {
    && a in g.nodes && g.nodes[a].parent in g.nodes
    && var p := g.nodes[a].parent;
       var kids := g.nodes[p].kids;
       && index < |kids| && kids[index] == a
       && if index > 0 && |KeysOf(g, kids[index - 1])| > DEGREE - 1 then
            Shared(g, p, index - 1, |KeysOf(g, kids[index - 1])| - 1, g')
          else if index + 1 < |kids| && |KeysOf(g, kids[index + 1])| > DEGREE - 1 then
            Shared(g, p, index, |KeysOf(g, a)| + 1, g')
          else Joined(g, p, if index > 0 then index - 1 else index, g')
  }

  /** The entry `r` left leaf `a`, where it was at position `i`.  Nothing else changed unless the
      leaf was an entry short then and not the root. */
  ghost predicate Departed(g: Tree, r: RID, a: int, i: nat, g': Tree) {
    && a in Leaves(g) && i < |Leaves(g)[a]| && Leaves(g)[a][i] == r
    && if a == g.root || |Leaves(g)[a]| >= DEGREE then g' == RemoveKey(g, a, i)
       else exists index :: Evened(RemoveKey(g, a, i), a, index, g')
  }

  lemma KidParent(g: Tree, recs: Records, extra: set<RID>, p: int, index: nat)
    requires Core(g, recs, -1, -1, extra) && p in g.nodes && index < |g.nodes[p].kids|
    ensures
      var c := g.nodes[p].kids[index];
      c in g.nodes && g.nodes[c].parent == p
  {
    assert KidOk(g.nodes, recs, -1, -1, p, index);
  }

  lemma EvenedByLeft(g: Tree, a: int, index: nat, g': Tree)
    requires a in g.nodes && g.nodes[a].parent in g.nodes
    requires
      var p := g.nodes[a].parent;
      && 0 < index < |g.nodes[p].kids| && g.nodes[p].kids[index] == a
      && var n := |KeysOf(g, g.nodes[p].kids[index - 1])|;
         n > DEGREE - 1 && Shared(g, p, index - 1, n - 1, g')
    ensures Evened(g, a, index, g')
  {
    hide Shared;
  }

  lemma EvenedByRight(g: Tree, a: int, index: nat, g': Tree)
    requires a in g.nodes && g.nodes[a].parent in g.nodes
    requires
      var p := g.nodes[a].parent;
      && index + 1 < |g.nodes[p].kids| && g.nodes[p].kids[index] == a
      && (index > 0 ==> |KeysOf(g, g.nodes[p].kids[index - 1])| <= DEGREE - 1)
      && |KeysOf(g, g.nodes[p].kids[index + 1])| > DEGREE - 1 && Shared(g, p, index, |KeysOf(g, a)| + 1, g')
    ensures Evened(g, a, index, g')
  {
    hide Shared;
  }

  lemma EvenedByJoin(g: Tree, a: int, index: nat, g': Tree)
    requires a in g.nodes && g.nodes[a].parent in g.nodes
    requires
      var p := g.nodes[a].parent;
      && index < |g.nodes[p].kids| && g.nodes[p].kids[index] == a
      && (index > 0 ==> |KeysOf(g, g.nodes[p].kids[index - 1])| <= DEGREE - 1)
      && (index + 1 < |g.nodes[p].kids| ==> |KeysOf(g, g.nodes[p].kids[index + 1])| <= DEGREE - 1)
      && Joined(g, p, if index > 0 then index - 1 else index, g')
    ensures Evened(g, a, index, g')
  {
    hide Joined;
  }

  lemma EvenedLater(g: Tree, a: int, index: nat, g1: Tree, g': Tree)
    requires Evened(g, a, index, g1) && Leaves(g') == Leaves(g1)
    ensures Evened(g, a, index, g')
  {
  }

  lemma RecutShared(g: Tree, recs: Records, p: int, k: nat, n: nat, x: RID, g': Tree)
    requires LeavesRecut(g, recs, p, k, n, x, g') && g.nodes[p].lvl == 1
    requires g.nodes[g.nodes[p].kids[k]].lvl == g.nodes[g.nodes[p].kids[k + 1]].lvl == 0
    ensures Shared(g, p, k, n, g')
  {
    var l, r, both := g.nodes[p].kids[k], g.nodes[p].kids[k + 1], JoinedKeys(g, p, k);
    var after := Leaves(g)[l := both[..n]][r := both[n..]];
    assert forall c :: c in Leaves(g') <==> c in after;
    assert forall c :: c in after ==> Leaves(g')[c] == after[c];
  }

  lemma HalfMergedJoined(g: Tree, p: int, k: nat)
    requires Mergeable(g.nodes, p, k) && g.nodes[p].lvl == 1
    requires
      var l, r := g.nodes[g.nodes[p].kids[k]], g.nodes[g.nodes[p].kids[k + 1]];
      l.lvl == r.lvl == 0 && l.kids == [] && r.kids == []
    ensures Joined(g, p, k, HalfMerged(g, p, k))
  {
    HalfMergedLeaves(g, p, k);
    hide HalfMerged;
  }

  lemma InnerMergedLeaves(g: Tree, p: int, k: nat)
    requires Mergeable(g.nodes, p, k)
    requires g.nodes[g.nodes[p].kids[k]].lvl > 0 && g.nodes[g.nodes[p].kids[k + 1]].lvl > 0
    ensures Leaves(HalfMerged(g, p, k)) == Leaves(g)
  {
    hide Removed, MergeOwners;
  }

  lemma DroppedLeaves(g: Tree, p: int, k: nat)
    requires p in g.nodes && k < |g.nodes[p].keys| && k + 1 < |g.nodes[p].kids| && g.nodes[p].lvl > 0
    ensures Leaves(Dropped(g, p, k)) == Leaves(g)
  {
    hide Removed;
  }

  lemma InnerRecutLeaves(g: Tree, recs: Records, p: int, k: nat, n: nat, g': Tree)
    requires InnerRecut(g, recs, p, k, n, g') && g.nodes[p].lvl > 1
    requires g.nodes[g.nodes[p].kids[k]].lvl == g.nodes[g.nodes[p].kids[k + 1]].lvl == g.nodes[p].lvl - 1
    ensures Leaves(g') == Leaves(g)
  {
    hide InnerKeys, InnerKids;
    forall c | c in g.nodes
      ensures g'.nodes[c].lvl == g.nodes[c].lvl && (g.nodes[c].lvl == 0 ==> g'.nodes[c].keys == g.nodes[c].keys) {
    }
    assert forall c :: c in Leaves(g') <==> c in Leaves(g);
  }

  lemma CollapseLeaves(g: Tree)
    requires g.root in g.nodes && |g.nodes[g.root].kids| > 0 && g.nodes[g.root].kids[0] in g.nodes
    requires g.nodes[g.root].lvl > 0
    ensures Leaves(Collapse(g)) == Leaves(g)
  {
  }
}
