/** Each step of the deletion loop at once: fill of the nodes and the pages written. */
module BTreeShrink {
  import opened Common
  import opened BTreeModel
  import opened BTreePages
  import opened BTreeSearch
  import opened BTreeDeletion
  import opened BTreeBorrow
  import opened BTreeSteps

  // ---- a key leaves a leaf

  lemma RemovedKeyFill(g: Tree, a: int, i: nat)
    requires Fill(g.nodes, g.root, -1, -1) && a in g.nodes && i < |g.nodes[a].keys| && g.nodes[a].lvl == 0
      && -1 !in g.nodes
    ensures Fill(RemoveKey(g, a, i).nodes, g.root, -1, a)
    ensures |g.nodes[a].keys| - 1 >= DEGREE - 1 || a == g.root ==> Fill(RemoveKey(g, a, i).nodes, g.root, -1, -1)
  {
    DeleteAt(g.nodes[a].keys, i);
    hide Removed;
  }

  lemma RemovedKeyPages(view: seq<BPage>, g: Tree, free: seq<int>, a: int, i: nat, p: BPage)
    requires PagesOk(view, g, free, {}) && a in g.nodes && i < |g.nodes[a].keys| && 0 < a < |view|
      && g.nodes[a].lvl == 0
    requires Proper(p) && view[a].BNode? && p == view[a].(n := |g.nodes[a].keys| - 1, row_ptr := p.row_ptr)
    requires p.row_ptr[..p.n] == Removed(g.nodes[a].keys, i)
    ensures PagesOk(view[a := p], RemoveKey(g, a, i), free, {})
    ensures Shows(p, RemoveKey(g, a, i).nodes[a])
  {
    NodePage(view, g, free, {}, a);
    DeleteAt(g.nodes[a].keys, i);
    hide Removed;
    var g' := RemoveKey(g, a, i);
    assert Shows(p, g'.nodes[a]);
    hide Shows, Queue, Conserved;
    Rewrite(view, g, free, {}, view[a := p], g', {});
  }

  // ---- a separator and the child behind it leave an inner node

  function Dropped(g: Tree, p: int, k: nat): Tree
    requires p in g.nodes && k < |g.nodes[p].keys| && k + 1 < |g.nodes[p].kids|
  {
    var pn := g.nodes[p];
    Tree(g.root, g.nodes[p := pn.(keys := Removed(pn.keys, k), kids := Removed(pn.kids, k + 1))], g.owner, g.lost)
  }

  lemma DroppedPages(view: seq<BPage>, g: Tree, free: seq<int>, p: int, k: nat, page: BPage)
    requires PagesOk(view, g, free, {}) && p in g.nodes && g.nodes[p].lvl > 0 && k < |g.nodes[p].keys|
      && |g.nodes[p].kids| == |g.nodes[p].keys| + 1
    requires 0 < p < |view| && view[p].BNode?
    requires Proper(page) && page == view[p].(n := |g.nodes[p].keys| - 1, row_ptr := page.row_ptr, child := page.child)
    requires page.row_ptr[..page.n] == Removed(g.nodes[p].keys, k)
      && page.child[..page.n + 1] == Removed(g.nodes[p].kids, k + 1)
    ensures PagesOk(view[p := page], Dropped(g, p, k), free, {}) && Shows(page, Dropped(g, p, k).nodes[p])
  {
    NodePage(view, g, free, {}, p);
    DeleteAt(g.nodes[p].keys, k);
    hide Removed;
    var g' := Dropped(g, p, k);
    assert Shows(page, g'.nodes[p]);
    hide Shows, Queue, Conserved;
    Rewrite(view, g, free, {}, view[p := page], g', {});
  }

  /** The tree after the keys of a merge have moved but before the parent forgets the page: the
      state between a merge and the next round of the loop. */
  function HalfMerged(g: Tree, p: int, k: nat): Tree
    requires Mergeable(g.nodes, p, k)
  {
    var m := Merge(g, p, k);
    Tree(g.root, m.nodes[p := g.nodes[p]], m.owner, g.lost)
  }

  lemma MergeInTwoSteps(g: Tree, p: int, k: nat)
    requires Mergeable(g.nodes, p, k)
    ensures HalfMerged(g, p, k).nodes[p] == g.nodes[p]
    ensures Dropped(HalfMerged(g, p, k), p, k) == Merge(g, p, k)
  {
    hide Removed, MergeOwners, Reparent;
  }

  // ---- borrowing between leaves

  lemma RecutLeavesFill(g: Tree, recs: Records, p: int, k: nat, n: nat, x: RID, g': Tree, under: int)
    requires LeavesRecut(g, recs, p, k, n, x, g') && Fill(g.nodes, g.root, -1, under)
    requires under == g.nodes[p].kids[k] || under == g.nodes[p].kids[k + 1]
    requires DEGREE - 1 <= n <= 2 * DEGREE - 1 && DEGREE - 1 <= |JoinedKeys(g, p, k)| - n <= 2 * DEGREE - 1
    requires g.root in g.nodes
    ensures Fill(g'.nodes, g'.root, -1, -1)
  {
    hide JoinedKeys;
  }

  lemma RecutLeavesPages(view: seq<BPage>, g: Tree, free: seq<int>, recs: Records, p: int, k: nat, n: nat, x: RID,
      g': Tree,
                         lp: BPage, rp: BPage, pp: BPage)
    requires PagesOk(view, g, free, {}) && LeavesRecut(g, recs, p, k, n, x, g')
    requires
      var l, r := g.nodes[p].kids[k], g.nodes[p].kids[k + 1];
      && 0 < l < |view| && 0 < r < |view| && 0 < p < |view| && view[l].BNode? && view[r].BNode? && view[p].BNode?
      && g.nodes[l].lvl == 0 && g.nodes[r].lvl == 0 && g.nodes[l].parent == p && g.nodes[r].parent == p
        && g.nodes[p].lvl > 0
      && n <= 2 * DEGREE - 1 && |JoinedKeys(g, p, k)| - n <= 2 * DEGREE - 1
      && Proper(lp) && lp == view[l].(n := n, row_ptr := lp.row_ptr) && lp.row_ptr[..n] == JoinedKeys(g, p, k)[..n]
      && Proper(rp) && rp == view[r].(n := |JoinedKeys(g, p, k)| - n, row_ptr := rp.row_ptr)
        && rp.row_ptr[..rp.n] == JoinedKeys(g, p, k)[n..]
      && view[p].n <= |view[p].row_ptr| && k < |view[p].row_ptr| && pp == view[p].(row_ptr := view[p].row_ptr[k := x])
    ensures
      var l, r := g.nodes[p].kids[k], g.nodes[p].kids[k + 1];
      PagesOk(view[l := lp][r := rp][p := pp], g', free, {})
  {
    var l, r := g.nodes[p].kids[k], g.nodes[p].kids[k + 1];
    NodePage(view, g, free, {}, l);
    NodePage(view, g, free, {}, r);
    NodePage(view, g, free, {}, p);
    hide JoinedKeys;
    assert pp.row_ptr[..pp.n] == view[p].row_ptr[..pp.n][k := x];
    assert Shows(lp, g'.nodes[l]) && Shows(rp, g'.nodes[r]) && Shows(pp, g'.nodes[p]);
    hide Shows, Queue, Conserved;
    Rewrite(view, g, free, {}, view[l := lp][r := rp][p := pp], g', {});
  }

  // ---- merging leaves

  lemma MergeFill(g: Tree, recs: Records, p: int, k: nat, under: int)
    requires Nodes(g.nodes, recs) && Down(g.nodes, recs, -1, -1) && p in g.nodes && k < |g.nodes[p].keys|
      && g.nodes[p].lvl > 0
    requires Fill(g.nodes, g.root, -1, under) && Mergeable(g.nodes, p, k)
    requires under == g.nodes[p].kids[k] || under == g.nodes[p].kids[k + 1]
    requires |g.nodes[g.nodes[p].kids[k]].keys| + |g.nodes[g.nodes[p].kids[k + 1]].keys| <= 2 * DEGREE - 2
    requires |g.nodes[g.nodes[p].kids[k]].keys| >= DEGREE - 1 || |g.nodes[g.nodes[p].kids[k + 1]].keys| >= DEGREE - 1
    ensures Fill(Merge(g, p, k).nodes, g.root, -1, p)
  {
    DeleteAt(g.nodes[p].keys, k);
    KidsOf(g.nodes, recs, -1, -1, p);
    hide Down, Removed, MergeOwners, NodeOk;
  }

  lemma MergeLeavesPages(view: seq<BPage>, g: Tree, free: seq<int>, p: int, k: nat, lp: BPage, view': seq<BPage>)
    requires PagesOk(view, g, free, {}) && Mergeable(g.nodes, p, k)
    requires
      var l, r := g.nodes[p].kids[k], g.nodes[p].kids[k + 1];
      && 0 < l < |view| && 0 < r < |view| && view[l].BNode? && |view'| == |view|
      && g.nodes[l].lvl == 0 && g.nodes[l].kids == [] && g.nodes[r].kids == []
      && |JoinedKeys(g, p, k)| <= 2 * DEGREE - 1
      && Proper(lp) && lp == view[l].(n := |JoinedKeys(g, p, k)|, row_ptr := lp.row_ptr)
        && lp.row_ptr[..lp.n] == JoinedKeys(g, p, k)
      && view'[l] == lp && (forall a :: 0 <= a < |view| && a != l && a != r ==> view'[a] == view[a])
    ensures PagesOk(view', HalfMerged(g, p, k), free, {g.nodes[p].kids[k + 1]})
  {
    var l, r := g.nodes[p].kids[k], g.nodes[p].kids[k + 1];
    NodePage(view, g, free, {}, l);
    NodePage(view, g, free, {}, r);
    CtrlOf(view, g, free, {});
    var g' := HalfMerged(g, p, k);
    MergedLeaf(g, p, k);
    HalfMergedLeaves(g, p, k);
    assert Shows(lp, g'.nodes[l]);
    hide Shows, Queue, Conserved, HalfMerged, JoinedKeys, Merge;
    Rewrite(view, g, free, {}, view', g', {r});
  }

  lemma HalfMergedLeaves(g: Tree, p: int, k: nat)
    requires Mergeable(g.nodes, p, k) && g.nodes[g.nodes[p].kids[k]].lvl == 0
      && g.nodes[g.nodes[p].kids[k + 1]].kids == []
    ensures
      var t, t' := g.nodes, HalfMerged(g, p, k).nodes;
      var l, r := t[p].kids[k], t[p].kids[k + 1];
      && t'.Keys == t.Keys - {r} && HalfMerged(g, p, k).root == g.root
      && t'[l].keys == JoinedKeys(g, p, k) && t'[l].lvl == 0 && t'[l].parent == t[l].parent
      && forall c :: c in t && c != l && c != r ==> t'[c] == t[c]
  {
    hide Removed, MergeOwners;
  }

  // ---- merging inner nodes

  lemma MergeInnerPages(view: seq<BPage>, g: Tree, free: seq<int>, p: int, k: nat, lp: BPage, view': seq<BPage>)
    requires PagesOk(view, g, free, {}) && Mergeable(g.nodes, p, k)
    requires
      var l, r := g.nodes[p].kids[k], g.nodes[p].kids[k + 1];
      && 0 < l < |view| && 0 < r < |view| && view[l].BNode? && |view'| == |view|
      && g.nodes[l].lvl > 0 && p !in g.nodes[r].kids && l !in g.nodes[r].kids && r !in g.nodes[r].kids
      && (forall c :: c in g.nodes[r].kids ==> c in g.nodes)
      && |InnerKeys(g, p, k)| <= 2 * DEGREE - 1
      && Proper(lp) && lp == view[l].(n := |InnerKeys(g, p, k)|, row_ptr := lp.row_ptr, child := lp.child)
      && lp.row_ptr[..lp.n] == InnerKeys(g, p, k) && lp.child[..lp.n + 1] == InnerKids(g, p, k)
      && view'[l] == lp
      && (forall a :: 0 <= a < |view| && a != l && a != r ==> view'[a] == Adopted(view, g.nodes[r].kids, l)[a])
    ensures PagesOk(view', HalfMerged(g, p, k), free, {g.nodes[p].kids[k + 1]})
  {
    var l, r := g.nodes[p].kids[k], g.nodes[p].kids[k + 1];
    NodePage(view, g, free, {}, l);
    NodePage(view, g, free, {}, r);
    NodePage(view, g, free, {}, p);
    CtrlOf(view, g, free, {});
    var g' := HalfMerged(g, p, k);
    MergedInner(g, p, k);
    MergeInTwoSteps(g, p, k);
    assert g'.nodes[l] == g.nodes[l].(keys := InnerKeys(g, p, k), kids := InnerKids(g, p, k), hi := g.nodes[r].hi);
    assert Shows(lp, g'.nodes[l]);
    forall a | a in g'.nodes ensures 0 < a < |view'| && Shows(view'[a], g'.nodes[a]) {
      if a != l {
        NodePage(view, g, free, {}, a);
      }
    }
    FreeApart(view, g, free, g.nodes[r].kids);
    hide Shows, Queue, Conserved, Merge, InnerKeys, InnerKids;
    Rewrite(view, g, free, {}, view', g', {r});
  }

  lemma FreeApart(view: seq<BPage>, g: Tree, free: seq<int>, kids: seq<int>)
    requires PagesOk(view, g, free, {}) && forall c :: c in kids ==> c in g.nodes
    ensures forall a :: a in free ==> a !in kids
  {
  }

  // ---- borrowing between inner nodes

  lemma RecutInnerFill(g: Tree, recs: Records, p: int, k: nat, n: nat, g': Tree, under: int)
    requires InnerRecut(g, recs, p, k, n, g') && Fill(g.nodes, g.root, -1, under) && g.root in g.nodes
    requires under == g.nodes[p].kids[k] || under == g.nodes[p].kids[k + 1]
    requires DEGREE - 1 <= n <= 2 * DEGREE - 1 && DEGREE - 1 <= |InnerKeys(g, p, k)| - n - 1 <= 2 * DEGREE - 1
    ensures Fill(g'.nodes, g'.root, -1, -1)
  {
    hide InnerKeys, InnerKids;
  }

  /** Only one child changes parents: the last of the left node or the first of the right one. */
  lemma RecutInnerPages(view: seq<BPage>, g: Tree, free: seq<int>, recs: Records, p: int, k: nat, n: nat, g': Tree,
                        lp: BPage, rp: BPage, pp: BPage, son: int, home: int)
    requires PagesOk(view, g, free, {}) && InnerRecut(g, recs, p, k, n, g')
    requires
      var l, r := g.nodes[p].kids[k], g.nodes[p].kids[k + 1];
      var L, R := g.nodes[l], g.nodes[r];
      && 0 < l < |view| && 0 < r < |view| && 0 < p < |view| && view[l].BNode? && view[r].BNode? && view[p].BNode?
      && L.lvl > 0 && R.lvl == L.lvl && L.parent == p && R.parent == p && g.nodes[p].lvl > 0
      && n <= 2 * DEGREE - 1 && |InnerKeys(g, p, k)| - n - 1 <= 2 * DEGREE - 1
      && Proper(lp) && lp == view[l].(n := n, row_ptr := lp.row_ptr, child := lp.child)
      && lp.row_ptr[..n] == InnerKeys(g, p, k)[..n] && lp.child[..n + 1] == InnerKids(g, p, k)[..n + 1]
      && Proper(rp) && rp == view[r].(n := |InnerKeys(g, p, k)| - n - 1, row_ptr := rp.row_ptr, child := rp.child)
      && rp.row_ptr[..rp.n] == InnerKeys(g, p, k)[n + 1..] && rp.child[..rp.n + 1] == InnerKids(g, p, k)[n + 1..]
      && k < |view[p].row_ptr| && view[p].n <= |view[p].row_ptr|
        && pp == view[p].(row_ptr := view[p].row_ptr[k := InnerKeys(g, p, k)[n]])
      && son in g.nodes && son != l && son != r && son != p && 0 < son < |view| && view[son].BNode?
      && (forall c :: c in L.kids ==> c in g.nodes && g.nodes[c].parent == l && c !in R.kids)
      && (forall c :: c in R.kids ==> c in g.nodes && g.nodes[c].parent == r)
      && (home == r ==> son in L.kids && forall c :: c in InnerKids(g, p, k)[n + 1..] <==> c in R.kids || c == son)
      && (home == l ==> son in R.kids && forall c :: c in InnerKids(g, p, k)[n + 1..] <==> c in R.kids && c != son)
      && (home == l || home == r)
    ensures
      var l, r := g.nodes[p].kids[k], g.nodes[p].kids[k + 1];
      PagesOk(view[l := lp][r := rp][p := pp][son := view[son].(parent := home)], g', free, {})
  {
    var l, r := g.nodes[p].kids[k], g.nodes[p].kids[k + 1];
    NodePage(view, g, free, {}, l);
    NodePage(view, g, free, {}, r);
    NodePage(view, g, free, {}, p);
    NodePage(view, g, free, {}, son);
    hide InnerKeys, InnerKids;
    RecutInnerShown(view, g, recs, p, k, n, g', lp, rp, pp);
    RecutInnerOthers(view, g, free, recs, p, k, n, g', son, home);
    hide Shows, Queue, Conserved;
    Rewrite(view, g, free, {}, view[l := lp][r := rp][p := pp][son := view[son].(parent := home)], g', {});
  }

  lemma RecutInnerShown(view: seq<BPage>, g: Tree, recs: Records, p: int, k: nat, n: nat, g': Tree, lp: BPage,
      rp: BPage, pp: BPage)
    requires InnerRecut(g, recs, p, k, n, g')
    requires
      var l, r := g.nodes[p].kids[k], g.nodes[p].kids[k + 1];
      && 0 < l < |view| && 0 < r < |view| && 0 < p < |view| && view[l].BNode? && view[r].BNode? && view[p].BNode?
      && Shows(view[l], g.nodes[l]) && Shows(view[r], g.nodes[r]) && Shows(view[p], g.nodes[p])
      && g.nodes[l].lvl > 0 && g.nodes[r].lvl == g.nodes[l].lvl && g.nodes[l].parent == p && g.nodes[r].parent == p
        && g.nodes[p].lvl > 0
      && n <= 2 * DEGREE - 1 && |InnerKeys(g, p, k)| - n - 1 <= 2 * DEGREE - 1
      && Proper(lp) && lp == view[l].(n := n, row_ptr := lp.row_ptr, child := lp.child)
      && lp.row_ptr[..n] == InnerKeys(g, p, k)[..n] && lp.child[..n + 1] == InnerKids(g, p, k)[..n + 1]
      && Proper(rp) && rp == view[r].(n := |InnerKeys(g, p, k)| - n - 1, row_ptr := rp.row_ptr, child := rp.child)
      && rp.row_ptr[..rp.n] == InnerKeys(g, p, k)[n + 1..] && rp.child[..rp.n + 1] == InnerKids(g, p, k)[n + 1..]
      && k < |view[p].row_ptr| && view[p].n <= |view[p].row_ptr|
        && pp == view[p].(row_ptr := view[p].row_ptr[k := InnerKeys(g, p, k)[n]])
    ensures
      var l, r := g.nodes[p].kids[k], g.nodes[p].kids[k + 1];
      Shows(lp, g'.nodes[l]) && Shows(rp, g'.nodes[r]) && Shows(pp, g'.nodes[p])
  {
    hide InnerKeys, InnerKids;
    assert pp.row_ptr[..pp.n] == view[p].row_ptr[..pp.n][k := pp.row_ptr[k]];
  }

  lemma RecutInnerOthers(view: seq<BPage>, g: Tree, free: seq<int>, recs: Records, p: int, k: nat, n: nat, g': Tree,
      son: int, home: int)
    requires PagesOk(view, g, free, {}) && InnerRecut(g, recs, p, k, n, g')
    requires
      var l, r := g.nodes[p].kids[k], g.nodes[p].kids[k + 1];
      var L, R := g.nodes[l], g.nodes[r];
      && son in g.nodes && son != l && son != r && son != p && 0 < son < |view| && view[son].BNode?
      && (forall c :: c in L.kids ==> c in g.nodes && g.nodes[c].parent == l && c !in R.kids)
      && (forall c :: c in R.kids ==> c in g.nodes && g.nodes[c].parent == r)
      && (home == r ==> son in L.kids && forall c :: c in InnerKids(g, p, k)[n + 1..] <==> c in R.kids || c == son)
      && (home == l ==> son in R.kids && forall c :: c in InnerKids(g, p, k)[n + 1..] <==> c in R.kids && c != son)
      && (home == l || home == r)
    ensures
      var l, r := g.nodes[p].kids[k], g.nodes[p].kids[k + 1];
      && g'.nodes[son] == g.nodes[son].(parent := home)
      && (forall c :: c in g.nodes && c != l && c != r && c != p && c != son ==> g'.nodes[c] == g.nodes[c])
      && (forall c :: c in g.nodes && c != l && c != r && c != p && c != son ==> Shows(view[c], g'.nodes[c]))
      && Shows(view[son].(parent := home), g'.nodes[son])
  {
    NodePage(view, g, free, {}, son);
    hide InnerKids, InnerKeys, Queue, Conserved;
  }

  // ---- the root collapses

  lemma CollapseFill(g: Tree)
    requires Fill(g.nodes, g.root, -1, g.root) && g.root in g.nodes && |g.nodes[g.root].kids| > 0
      && g.nodes[g.root].kids[0] in g.nodes
    requires g.nodes[g.root].kids[0] != g.root && -1 !in g.nodes
    ensures Fill(Collapse(g).nodes, Collapse(g).root, -1, -1)
  {
  }

  /** The root is the child already, but the child does not know it yet. */
  function Uprooted(g: Tree): Tree
    requires g.root in g.nodes && |g.nodes[g.root].kids| > 0
  {
    Tree(g.nodes[g.root].kids[0], g.nodes - {g.root}, g.owner, g.lost)
  }

  lemma UprootedFacts(g: Tree)
    requires g.root in g.nodes && |g.nodes[g.root].kids| > 0 && g.nodes[g.root].kids[0] in g.nodes
      && g.nodes[g.root].kids[0] != g.root
    ensures g.nodes[g.root].kids[0] in Uprooted(g).nodes
  {
  }

  lemma UprootedKeys(g: Tree)
    requires g.root in g.nodes && |g.nodes[g.root].kids| > 0
    ensures Uprooted(g).nodes.Keys == g.nodes.Keys - {g.root}
    ensures
      var c := g.nodes[g.root].kids[0];
      c in g.nodes && c != g.root ==> Collapse(g).nodes.Keys == g.nodes.Keys - {g.root}
  {
  }

  lemma UprootedPages(view: seq<BPage>, g: Tree, free: seq<int>)
    requires PagesOk(view, g, free, {}) && g.root in g.nodes && |g.nodes[g.root].kids| > 0 && view[0].BCtrl?
    ensures PagesOk(view[0 := view[0].(root_node := g.nodes[g.root].kids[0])], Uprooted(g), free, {g.root})
  {
    CtrlOf(view, g, free, {});
    hide Shows, Queue, Conserved;
    Rewrite(view, g, free, {}, view[0 := view[0].(root_node := g.nodes[g.root].kids[0])], Uprooted(g), {g.root});
  }

  lemma CollapsedPages(view: seq<BPage>, g: Tree, free: seq<int>, c: int)
    requires g.root in g.nodes && |g.nodes[g.root].kids| > 0 && c == g.nodes[g.root].kids[0] && c in g.nodes
      && c != g.root
    requires PagesOk(view, Uprooted(g), free, {}) && 0 < c < |view| && view[c].BNode?
    ensures PagesOk(view[c := view[c].(parent := -1)], Collapse(g), free, {})
  {
    NodePage(view, Uprooted(g), free, {}, c);
    CtrlOf(view, Uprooted(g), free, {});
    assert Shows(view[c].(parent := -1), Collapse(g).nodes[c]);
    hide Shows, Queue, Conserved;
    Rewrite(view, Uprooted(g), free, {}, view[c := view[c].(parent := -1)], Collapse(g), {});
  }

  // ---- facts about a thin node and its neighbours

  /** The neighbours of a thin node, `now` being child `index` of `p`. */
  lemma Neighbours(g: Tree, recs: Records, extra: set<RID>, p: int, k: nat)
    requires Core(g, recs, -1, -1, extra) && p in g.nodes && k < |g.nodes[p].keys| && g.nodes[p].lvl > 0
    ensures Mergeable(g.nodes, p, k)
    ensures
      var l, r, sep := g.nodes[p].kids[k], g.nodes[p].kids[k + 1], g.nodes[p].keys[k];
      && g.nodes[l].lvl == g.nodes[r].lvl == g.nodes[p].lvl - 1 && g.nodes[l].parent == p && g.nodes[r].parent == p
      && l != g.root && r != g.root && sep in recs && recs[sep].value.None? && -1 !in g.nodes
  {
    Siblings(g.nodes, recs, p, k);
  }

  lemma ThinParent(g: Tree, recs: Records, extra: set<RID>, now: int)
    requires Core(g, recs, -1, -1, extra) && now in g.nodes
    ensures if now == g.root then g.nodes[now].parent == -1 else
              var p := g.nodes[now].parent;
              && p in g.nodes && p >= 1 && now in g.nodes[p].kids && g.nodes[p].lvl == g.nodes[now].lvl + 1
              && |g.nodes[p].kids| == |g.nodes[p].keys| + 1 && p != now
  {
    if now != g.root {
      var p := g.nodes[now].parent;
      assert p in g.nodes && now in g.nodes[p].kids;
      assert NodeOk(g.nodes[p], recs);
      KidsOf(g.nodes, recs, -1, -1, p);
    }
  }

  /** A parent of a thin node that is not the root has at least one separator. */
  lemma ThinHasSibling(g: Tree, now: int)
    requires Fill(g.nodes, g.root, -1, now) && now in g.nodes && g.nodes[now].parent in g.nodes
      && g.nodes[now].parent != now
    requires g.nodes[g.nodes[now].parent].lvl > 0 && -1 !in g.nodes
    ensures |g.nodes[g.nodes[now].parent].keys| >= 1
  {
  }

  lemma ShownKey(g: Tree, a: int, p: BPage, k: nat)
    requires a in g.nodes && Shows(p, g.nodes[a]) && k < |g.nodes[a].keys|
    ensures k < |p.row_ptr| && p.row_ptr[k] == g.nodes[a].keys[k]
  {
    assert p.row_ptr[..p.n][k] == p.row_ptr[k];
  }

  lemma CoreRoot(g: Tree, recs: Records, extra: set<RID>)
    requires Core(g, recs, -1, -1, extra)
    ensures g.root in g.nodes && -1 !in g.nodes
  {
  }

  lemma TakeLast<T>(a: seq<T>, b: seq<T>)
    requires a != []
    ensures a[..|a| - 1] == (a + b)[..|a| - 1]
    ensures Inserted(b, 0, a[|a| - 1]) == (a + b)[|a| - 1..]
  {
  }

  lemma GiveFirst<T>(a: seq<T>, b: seq<T>)
    requires b != []
    ensures a + [b[0]] == (a + b)[..|a| + 1]
    ensures Removed(b, 0) == (a + b)[|a| + 1..]
  {
  }

  lemma MergeLeafStep(g: Tree, recs: Records, extra: set<RID>, p: int, k: nat, thin: int)
    requires Core(g, recs, -1, -1, extra) && Fill(g.nodes, g.root, -1, thin) && p in g.nodes && g.nodes[p].lvl == 1
      && k < |g.nodes[p].keys|
    requires Mergeable(g.nodes, p, k) && (thin == g.nodes[p].kids[k] || thin == g.nodes[p].kids[k + 1])
    requires |g.nodes[g.nodes[p].kids[k]].keys| + |g.nodes[g.nodes[p].kids[k + 1]].keys| <= 2 * DEGREE - 2
    requires |g.nodes[g.nodes[p].kids[k]].keys| >= DEGREE - 1 || |g.nodes[g.nodes[p].kids[k + 1]].keys| >= DEGREE - 1
    ensures
      var g', sep := HalfMerged(g, p, k), g.nodes[p].keys[k];
      && p in g'.nodes && g'.nodes[p] == g.nodes[p] && g'.root == g.root
        && g'.nodes.Keys == g.nodes.Keys - {g.nodes[p].kids[k + 1]}
      && g.nodes[p].kids[k] in g'.nodes && k < |g.nodes[p].keys| && |g.nodes[p].kids| == |g.nodes[p].keys| + 1
      && Core(Dropped(g', p, k), recs, -1, -1, extra + {sep}) && Fill(Dropped(g', p, k).nodes, g'.root, -1, p)
      && NodeOk(g.nodes[p], recs) && sep !in extra
      && (forall c :: c in g'.nodes ==> c in g.nodes && g'.nodes[c].lvl == g.nodes[c].lvl)
    ensures
      var l, r := g.nodes[p].kids[k], g.nodes[p].kids[k + 1];
      g.nodes[l].lvl == 0 && g.nodes[l].kids == [] && g.nodes[r].kids == []
  {
    hide Core, Merge, HalfMerged, Fill, Dropped;
    MergeInTwoSteps(g, p, k);
    LeafSiblings(g, recs, extra, p, k);
    CoreKeys(g, recs, -1, -1, extra);
    NodeFacts(g, recs, -1, -1, extra, p);
    HalfMergedLeaves(g, p, k);
    CoreParts(g, recs, extra);
    MergeFill(g, recs, p, k, thin);
    MergeOk(g, recs, extra, p, k);
  }

  lemma CoreParts(g: Tree, recs: Records, extra: set<RID>)
    requires Core(g, recs, -1, -1, extra)
    ensures Nodes(g.nodes, recs) && Down(g.nodes, recs, -1, -1)
  {
  }

  /** A node that has enough keys is not thin. */
  lemma SettleFill(t: map<int, Node>, root: int, now: int)
    requires Fill(t, root, -1, now) && now in t && -1 !in t
    requires if now == root then t[now].lvl > 0 ==> |t[now].keys| >= 1 else |t[now].keys| >= DEGREE - 1
    ensures Fill(t, root, -1, -1)
  {
  }

  lemma SearchedSeparator(nd: Node, recs: Records, i: nat, k: nat)
    requires NodeOk(nd, recs) && k < |nd.keys| && LowerBound(nd.keys, recs, Rk(recs, nd.keys[k]), i)
    ensures i == k
  {
    assert LowerBound(nd.keys, recs, Rk(recs, nd.keys[k]), k);
    OneLowerBound(nd.keys, recs, Rk(recs, nd.keys[k]), i, k);
  }

  /** delete_handler destroys the separator record that nobody references any more. */
  lemma ForgetSeparator(g: Tree, recs: Records, extra: set<RID>, sep: RID)
    requires Core(g, recs, -1, -1, extra + {sep}) && sep !in extra
    ensures Core(g, recs - {sep}, -1, -1, extra)
  {
    CoreKeys(g, recs, -1, -1, extra + {sep});
    hide Core;
    RecordsChange(g, recs, -1, -1, extra + {sep}, recs - {sep}, extra);
  }

  lemma DroppedFacts(g: Tree, p: int, k: nat)
    requires p in g.nodes && k < |g.nodes[p].keys| && k + 1 < |g.nodes[p].kids|
    ensures
      var g' := Dropped(g, p, k);
      && g'.root == g.root && g'.nodes.Keys == g.nodes.Keys
      && (forall c :: c in g.nodes ==> g'.nodes[c].lvl == g.nodes[c].lvl && g'.nodes[c].parent == g.nodes[c].parent)
      && |g'.nodes[p].keys| == |g.nodes[p].keys| - 1
  {
    DeleteAt(g.nodes[p].keys, k);
    hide Removed;
  }

  // ---- the rows of the two inner borrows

  lemma InnerPair(g: Tree, recs: Records, extra: set<RID>, p: int, k: nat)
    requires Core(g, recs, -1, -1, extra) && p in g.nodes && g.nodes[p].lvl > 1 && k < |g.nodes[p].keys|
    ensures Mergeable(g.nodes, p, k)
    ensures
      var l, r := g.nodes[p].kids[k], g.nodes[p].kids[k + 1];
      var L, R := g.nodes[l], g.nodes[r];
      && L.lvl > 0 && R.lvl == L.lvl && |L.kids| == |L.keys| + 1 && |R.kids| == |R.keys| + 1
      && |InnerKids(g, p, k)| == |InnerKeys(g, p, k)| + 1
      && (forall c :: c in L.kids ==>
        c in g.nodes && g.nodes[c].parent == l && c !in R.kids && c != l && c != r && c != p)
      && (forall c :: c in R.kids ==> c in g.nodes && g.nodes[c].parent == r && c != l && c != r && c != p)
      && Distinct(R.kids)
  {
    Siblings(g.nodes, recs, p, k);
    var l, r := g.nodes[p].kids[k], g.nodes[p].kids[k + 1];
    assert NodeOk(g.nodes[l], recs) && NodeOk(g.nodes[r], recs);
    KidsOf(g.nodes, recs, -1, -1, l);
    KidsOf(g.nodes, recs, -1, -1, r);
  }

  lemma LeftRows(g: Tree, p: int, k: nat)
    requires Mergeable(g.nodes, p, k)
    ensures
      var L, R, sep := g.nodes[g.nodes[p].kids[k]], g.nodes[g.nodes[p].kids[k + 1]], g.nodes[p].keys[k];
      var K, C := InnerKeys(g, p, k), InnerKids(g, p, k);
      |L.keys| > 0 && |L.kids| == |L.keys| + 1 ==>
        var n := |L.keys| - 1;
        && K[..n] == L.keys[..n] && K[n] == L.keys[n] && K[n + 1..] == Inserted(R.keys, 0, sep)
        && C[..n + 1] == L.kids[..n + 1] && C[n + 1..] == Inserted(R.kids, 0, L.kids[n + 1])
        && (forall c :: c in C[n + 1..] <==> c in R.kids || c == L.kids[n + 1])
  {
  }

  lemma RightRows(g: Tree, p: int, k: nat)
    requires Mergeable(g.nodes, p, k)
    ensures
      var L, R, sep := g.nodes[g.nodes[p].kids[k]], g.nodes[g.nodes[p].kids[k + 1]], g.nodes[p].keys[k];
      var K, C := InnerKeys(g, p, k), InnerKids(g, p, k);
      |R.keys| > 0 && |L.kids| == |L.keys| + 1 && |R.kids| == |R.keys| + 1 && Distinct(R.kids) ==>
        var n := |L.keys| + 1;
        && K[..n] == L.keys + [sep] && K[n] == R.keys[0] && K[n + 1..] == Removed(R.keys, 0)
        && C[..n + 1] == L.kids + [R.kids[0]] && C[n + 1..] == Removed(R.kids, 0)
        && (forall c :: c in C[n + 1..] <==> c in R.kids && c != R.kids[0])
  {
    var L, R := g.nodes[g.nodes[p].kids[k]], g.nodes[g.nodes[p].kids[k + 1]];
    if |R.kids| > 0 && |L.kids| == |L.keys| + 1 && |R.keys| > 0 {
      var n, C := |L.keys| + 1, InnerKids(g, p, k);
      assert C[n + 1..] == R.kids[1..];
      assert R.kids == [R.kids[0]] + R.kids[1..];
    }
  }

  lemma ShownKid(g: Tree, a: int, p: BPage, k: nat)
    requires a in g.nodes && Shows(p, g.nodes[a]) && g.nodes[a].lvl > 0 && k <= p.n
      && |g.nodes[a].kids| == |g.nodes[a].keys| + 1
    ensures k < |p.child| && p.child[k] == g.nodes[a].kids[k] && p.child[k] in g.nodes[a].kids
  {
    assert p.child[..p.n + 1][k] == p.child[k];
  }

  lemma ShownLess(g: Tree, a: int, p: BPage)
    requires a in g.nodes && Shows(p, g.nodes[a]) && g.nodes[a].lvl > 0 && p.n > 0
      && |g.nodes[a].kids| == |g.nodes[a].keys| + 1
    ensures p.row_ptr[..p.n - 1] == g.nodes[a].keys[..p.n - 1] && p.child[..p.n] == g.nodes[a].kids[..p.n]
  {
    assert p.row_ptr[..p.n][..p.n - 1] == p.row_ptr[..p.n - 1];
    assert p.child[..p.n + 1][..p.n] == p.child[..p.n];
  }

  lemma KidPageOk(g: Tree, free: seq<int>, view: seq<BPage>, c: int)
    requires PagesOk(view, g, free, {}) && c in g.nodes
    ensures 0 < c < |view| && view[c].BNode?
  {
  }

  lemma MergeInnerStep(g: Tree, recs: Records, extra: set<RID>, p: int, k: nat, thin: int)
    requires Core(g, recs, -1, -1, extra) && Fill(g.nodes, g.root, -1, thin) && p in g.nodes && g.nodes[p].lvl > 1
      && k < |g.nodes[p].keys|
    requires Mergeable(g.nodes, p, k) && (thin == g.nodes[p].kids[k] || thin == g.nodes[p].kids[k + 1])
    requires |g.nodes[g.nodes[p].kids[k]].keys| + |g.nodes[g.nodes[p].kids[k + 1]].keys| <= 2 * DEGREE - 2
    requires |g.nodes[g.nodes[p].kids[k]].keys| >= DEGREE - 1 || |g.nodes[g.nodes[p].kids[k + 1]].keys| >= DEGREE - 1
    ensures
      var g', sep := HalfMerged(g, p, k), g.nodes[p].keys[k];
      && p in g'.nodes && g'.nodes[p] == g.nodes[p] && g'.root == g.root
        && g'.nodes.Keys == g.nodes.Keys - {g.nodes[p].kids[k + 1]}
      && g.nodes[p].kids[k] in g'.nodes && k < |g.nodes[p].keys| && |g.nodes[p].kids| == |g.nodes[p].keys| + 1
      && Core(Dropped(g', p, k), recs, -1, -1, extra) && Fill(Dropped(g', p, k).nodes, g'.root, -1, p)
      && NodeOk(g.nodes[p], recs) && sep !in extra
      && (forall c :: c in g'.nodes ==> c in g.nodes && g'.nodes[c].lvl == g.nodes[c].lvl)
  {
    hide Core, Merge, Fill, Dropped, HalfMerged, InnerKeys, InnerKids;
    MergeInTwoSteps(g, p, k);
    InnerPair(g, recs, extra, p, k);
    CoreKeys(g, recs, -1, -1, extra);
    NodeFacts(g, recs, -1, -1, extra, p);
    assert g.nodes[p].keys[k] in g.nodes[p].keys;
    HalfMergedInner(g, p, k);
    CoreParts(g, recs, extra);
    MergeFill(g, recs, p, k, thin);
    MergeOk(g, recs, extra, p, k);
  }

  lemma HalfMergedInner(g: Tree, p: int, k: nat)
    requires Mergeable(g.nodes, p, k) && g.nodes[g.nodes[p].kids[k]].lvl > 0
    ensures
      var l, r, g' := g.nodes[p].kids[k], g.nodes[p].kids[k + 1], HalfMerged(g, p, k);
      && g'.root == g.root && g'.nodes.Keys == g.nodes.Keys - {r} && l in g'.nodes && p in g'.nodes
      && (forall c :: c in g'.nodes ==> g'.nodes[c].lvl == g.nodes[c].lvl)
  {
    MergedInner(g, p, k);
    hide Merge, InnerKeys, InnerKids, Removed;
  }

  /** The search of b_tree_delete hits the entry. */
  lemma FoundEntry(g: Tree, recs: Records, extra: set<RID>, a: int, rid: RID, i: nat) returns (gone: RID)
    requires Core(g, recs, -1, -1, extra) && a in g.nodes && g.nodes[a].lvl == 0 && rid in recs
    requires g.nodes[a].lo <= Rk(recs, rid) < g.nodes[a].hi && LowerBound(g.nodes[a].keys, recs, Rk(recs, rid), i)
    requires exists r :: r in recs && r !in extra && recs[r].value.Some? && recs[r].rank == recs[rid].rank
    ensures i < |g.nodes[a].keys| && gone == g.nodes[a].keys[i]
    ensures gone in recs && gone !in extra && recs[gone].value.Some? && recs[gone].rank == recs[rid].rank
  {
    gone :| gone in recs && gone !in extra && recs[gone].value.Some? && recs[gone].rank == recs[rid].rank;
    CoreKeys(g, recs, -1, -1, extra);
    EntryInLeaf(g, recs, extra, a, gone);
    NodeFacts(g, recs, -1, -1, extra, a);
    InBounds(g.nodes[a].keys, recs, Rk(recs, rid), i, gone);
  }

  lemma RemovedLevel(g: Tree, a: int, i: nat)
    requires a in g.nodes && i < |g.nodes[a].keys|
    ensures a in RemoveKey(g, a, i).nodes && RemoveKey(g, a, i).nodes[a].lvl == g.nodes[a].lvl
      && |RemoveKey(g, a, i).nodes[a].keys| == |g.nodes[a].keys| - 1 && RemoveKey(g, a, i).root == g.root
  {
  }
}
