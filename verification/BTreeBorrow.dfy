/** Borrowing a key from a neighbour, seen as a merge, a cut elsewhere and a new separator. */
module BTreeBorrow {
  import opened Common
  import opened BTreeModel
  import opened BTreeDeletion
  import opened BTreeSearch

  // ---- leaves: the joined keys are cut at n, and `x`, a copy of the first key of the right
  //      part, becomes the separator.  The old separator is deleted before `x` is made, so
  //      that `x` may be the same record id.

  function JoinedKeys(g: Tree, p: int, k: nat): seq<RID>
    requires Mergeable(g.nodes, p, k)
  {
    g.nodes[g.nodes[p].kids[k]].keys + g.nodes[g.nodes[p].kids[k + 1]].keys
  }

  /** What the pages hold afterwards. */
  ghost predicate LeavesRecut(g: Tree, recs: Records, p: int, k: nat, n: nat, x: RID, g': Tree) {
    && Mergeable(g.nodes, p, k) && x in recs && n < |JoinedKeys(g, p, k)|
    && var t, t' := g.nodes, g'.nodes;
       var l, r := t[p].kids[k], t[p].kids[k + 1];
       && g'.root == g.root && g'.lost == g.lost && t'.Keys == t.Keys
       && t'[l] == t[l].(keys := JoinedKeys(g, p, k)[..n], hi := recs[x].rank)
       && t'[r] == t[l].(keys := JoinedKeys(g, p, k)[n..], lo := recs[x].rank, hi := t[r].hi)
       && t'[p] == t[p].(keys := t[p].keys[k := x])
       && (forall c :: c in t && c != l && c != r && c != p ==> t'[c] == t[c])
  }

  function RecutLeaves(g: Tree, recs: Records, p: int, k: nat, n: nat, x: RID): Tree
    requires Mergeable(g.nodes, p, k)
    requires
      var l := g.nodes[p].kids[k];
      g.nodes[l].lvl == 0 && n < |JoinedKeys(g, p, k)| && JoinedKeys(g, p, k)[n] in recs
  {
    var l, r := g.nodes[p].kids[k], g.nodes[p].kids[k + 1];
    Link(CutLeaf(Merge(g, p, k), recs, l, r, n), p, k, x, r)
  }

  lemma RecutLeavesShape(g: Tree, recs: Records, p: int, k: nat, n: nat, x: RID)
    requires Mergeable(g.nodes, p, k) && x in recs && n < |JoinedKeys(g, p, k)| && JoinedKeys(g, p, k)[n] in recs
    requires
      var l, r := g.nodes[p].kids[k], g.nodes[p].kids[k + 1];
      && g.nodes[l].lvl == 0 && g.nodes[l].kids == [] && g.nodes[r].kids == []
      && recs[x].rank == recs[JoinedKeys(g, p, k)[n]].rank
    ensures LeavesRecut(g, recs, p, k, n, x, RecutLeaves(g, recs, p, k, n, x))
  {
    var t := g.nodes;
    var l, r := t[p].kids[k], t[p].kids[k + 1];
    var g1 := Merge(g, p, k);
    assert g1.nodes[l].keys == JoinedKeys(g, p, k);
    assert Inserted(Removed(t[p].keys, k), k, x) == t[p].keys[k := x];
    assert Inserted(Removed(t[p].kids, k + 1), k + 1, r) == t[p].kids;
    hide Inserted, Removed, MergeOwners;
  }

  /** The state of the records between the two handlers. */
  ghost predicate Reseparated(recs: Records, sep: RID, b: RID, x: RID, recs': Records) {
    && b in recs && b != sep
    && x !in recs - {sep}
    && recs' == (recs - {sep})[x := Entry(recs[b].key, recs[b].rank, None)]
  }

  lemma LeafSiblings(g: Tree, recs: Records, extra: set<RID>, p: int, k: nat)
    requires Core(g, recs, -1, -1, extra) && p in g.nodes && g.nodes[p].lvl == 1 && k < |g.nodes[p].keys|
    ensures Mergeable(g.nodes, p, k)
    ensures
      var l, r, sep := g.nodes[p].kids[k], g.nodes[p].kids[k + 1], g.nodes[p].keys[k];
      && g.nodes[l].lvl == 0 && g.nodes[l].kids == [] && g.nodes[r].kids == [] && g.nodes[l].parent == p
        && g.nodes[r].parent == p
      && sep in recs && sep in g.owner
      && (forall b :: b in JoinedKeys(g, p, k) ==> b in recs && b != sep)
  {
    hide Up, RootOk, Pending, Down, Sorted;
    assert NodeOk(g.nodes[p], recs);
    assert Down(g.nodes, recs, -1, -1);
    Siblings(g.nodes, recs, p, k);
    var l, r, sep := g.nodes[p].kids[k], g.nodes[p].kids[k + 1], g.nodes[p].keys[k];
    assert NodeOk(g.nodes[l], recs) && NodeOk(g.nodes[r], recs);
    assert sep in g.nodes[p].keys;
  }

  lemma RecutLeavesOk(g: Tree, recs: Records, recs': Records, extra: set<RID>, p: int, k: nat, n: nat, x: RID)
    requires Core(g, recs, -1, -1, extra) && p in g.nodes && g.nodes[p].lvl == 1 && k < |g.nodes[p].keys|
    requires Mergeable(g.nodes, p, k) && 0 < n < |JoinedKeys(g, p, k)|
    requires Reseparated(recs, g.nodes[p].keys[k], JoinedKeys(g, p, k)[n], x, recs')
    ensures g.nodes[g.nodes[p].kids[k]].lvl == 0 && JoinedKeys(g, p, k)[n] in recs'
    ensures Core(RecutLeaves(g, recs', p, k, n, x), recs', -1, -1, extra)
    ensures LeavesRecut(g, recs', p, k, n, x, RecutLeaves(g, recs', p, k, n, x))
  {
    LeafSiblings(g, recs, extra, p, k);
    RecutLeavesShape(g, recs', p, k, n, x);
    RecutLeavesCore(g, recs, recs', extra, p, k, n, x);
  }

  lemma RecutLeavesCore(g: Tree, recs: Records, recs': Records, extra: set<RID>, p: int, k: nat, n: nat, x: RID)
    requires Core(g, recs, -1, -1, extra) && p in g.nodes && g.nodes[p].lvl == 1 && k < |g.nodes[p].keys|
    requires Mergeable(g.nodes, p, k) && 0 < n < |JoinedKeys(g, p, k)|
    requires Reseparated(recs, g.nodes[p].keys[k], JoinedKeys(g, p, k)[n], x, recs')
    ensures g.nodes[g.nodes[p].kids[k]].lvl == 0 && JoinedKeys(g, p, k)[n] in recs'
    ensures Core(RecutLeaves(g, recs', p, k, n, x), recs', -1, -1, extra)
  {
    LeafSiblings(g, recs, extra, p, k);
    var l, r, sep := g.nodes[p].kids[k], g.nodes[p].kids[k + 1], g.nodes[p].keys[k];
    assert JoinedKeys(g, p, k)[n] in JoinedKeys(g, p, k);
    assert r >= 1 && g.root !in {l};
    MergedRecords(g, recs, extra, p, k);
    MergedLeaf(g, p, k);
    hide Core, JoinedKeys, Merge, Mergeable, Rk;
    CutAndLink(Merge(g, p, k), recs - {sep}, recs', extra, p, k, l, r, n, x);
    SameCut(Merge(g, p, k), recs - {sep}, recs', l, r, n);
  }

  /** After a leaf merge delete_handler may destroy the separator. */
  lemma MergedRecords(g: Tree, recs: Records, extra: set<RID>, p: int, k: nat)
    requires Core(g, recs, -1, -1, extra) && p in g.nodes && g.nodes[p].lvl == 1 && k < |g.nodes[p].keys|
    ensures Mergeable(g.nodes, p, k)
    ensures Core(Merge(g, p, k), recs - {g.nodes[p].keys[k]}, -1, -1, extra)
  {
    hide Core, Merge;
    var sep := g.nodes[p].keys[k];
    OwnedKeys(g, recs, extra);
    LeafSiblings(g, recs, extra, p, k);
    MergeOk(g, recs, extra, p, k);
    MergedLeaf(g, p, k);
    RecordsChange(Merge(g, p, k), recs, -1, -1, extra + {sep}, recs - {sep}, extra);
  }

  /** Cut a leaf and hang the upper part beside it, the handler copying the separator. */
  lemma CutAndLink(g: Tree, recs: Records, recs': Records, extra: set<RID>, p: int, k: nat, l: int, r: int, n: nat,
      x: RID)
    requires Core(g, recs, -1, -1, extra) && x !in recs
    requires l in g.nodes && g.nodes[l].lvl == 0 && 0 < n < |g.nodes[l].keys| && r !in g.nodes && r >= 1
    requires p in g.nodes && l != p && l != g.root && g.nodes[l].parent == p && k < |g.nodes[p].kids|
      && g.nodes[p].kids[k] == l
    requires g.nodes[l].keys[n] in recs
      && recs' == recs[x := Entry(recs[g.nodes[l].keys[n]].key, recs[g.nodes[l].keys[n]].rank, None)]
    ensures k <= |g.nodes[p].keys|
    ensures Core(Link(CutLeaf(g, recs, l, r, n), p, k, x, r), recs', -1, -1, extra)
  {
    CutLeafOk(g, recs, extra, l, r, n);
    var g2 := CutLeaf(g, recs, l, r, n);
    CutLeafOwner(g, recs, extra, l, r, n);
    hide Core, CutLeaf;
    RecordsChange(g2, recs, l, r, extra, recs', extra + {x});
    LinkOk(g2, recs', l, r, extra + {x}, p, k, x);
    assert extra + {x} - {x} == extra;
  }

  lemma SameCut(g: Tree, recs: Records, recs': Records, l: int, r: int, n: nat)
    requires l in g.nodes && n < |g.nodes[l].keys| && g.nodes[l].keys[n] in recs && g.nodes[l].keys[n] in recs'
    requires recs[g.nodes[l].keys[n]].rank == recs'[g.nodes[l].keys[n]].rank
    ensures CutLeaf(g, recs, l, r, n) == CutLeaf(g, recs', l, r, n)
  {
  }

  lemma CutLeafOwner(g: Tree, recs: Records, extra: set<RID>, l: int, r: int, n: nat)
    requires Core(g, recs, -1, -1, extra) && l in g.nodes && n < |g.nodes[l].keys| && g.nodes[l].keys[n] in recs
      && r !in g.nodes
    ensures CutLeaf(g, recs, l, r, n).owner.Keys == g.owner.Keys && g.owner.Keys !! extra
      && g.owner.Keys + extra == recs.Keys
    ensures
      var t' := CutLeaf(g, recs, l, r, n).nodes;
      t'[l].keys == g.nodes[l].keys[..n] && t'[r].keys == g.nodes[l].keys[n..]
        && t'[r].lo == recs[g.nodes[l].keys[n]].rank
  {
  }

  lemma MergedLeaf(g: Tree, p: int, k: nat)
    requires Mergeable(g.nodes, p, k) && g.nodes[g.nodes[p].kids[k]].lvl == 0
    ensures
      var l, r, g1 := g.nodes[p].kids[k], g.nodes[p].kids[k + 1], Merge(g, p, k);
      && l in g1.nodes && r !in g1.nodes && g1.nodes[l].keys == JoinedKeys(g, p, k) && g1.nodes[l].lvl == 0
      && g1.nodes[l].parent == g.nodes[l].parent
      && p in g1.nodes && |g1.nodes[p].kids| > k && g1.nodes[p].kids[k] == l && g1.root == g.root
      && g1.owner.Keys == g.owner.Keys - {g.nodes[p].keys[k]}
  {
  }

  // ---- inner nodes: the keys are joined around the separator and cut at key n, which becomes
  //      the separator; no record is created or destroyed

  function InnerKeys(g: Tree, p: int, k: nat): seq<RID>
    requires Mergeable(g.nodes, p, k)
  {
    g.nodes[g.nodes[p].kids[k]].keys + [g.nodes[p].keys[k]] + g.nodes[g.nodes[p].kids[k + 1]].keys
  }

  function InnerKids(g: Tree, p: int, k: nat): seq<int>
    requires Mergeable(g.nodes, p, k)
  {
    g.nodes[g.nodes[p].kids[k]].kids + g.nodes[g.nodes[p].kids[k + 1]].kids
  }

  /** What the pages hold afterwards. */
  ghost predicate InnerRecut(g: Tree, recs: Records, p: int, k: nat, n: nat, g': Tree) {
    && Mergeable(g.nodes, p, k) && n < |InnerKeys(g, p, k)| && |InnerKids(g, p, k)| == |InnerKeys(g, p, k)| + 1
    && InnerKeys(g, p, k)[n] in recs
    && var t, t' := g.nodes, g'.nodes;
       var l, r, x := t[p].kids[k], t[p].kids[k + 1], InnerKeys(g, p, k)[n];
       && g'.root == g.root && g'.lost == g.lost && t'.Keys == t.Keys
       && t'[l] == t[l].(keys := InnerKeys(g, p, k)[..n], kids := InnerKids(g, p, k)[..n + 1], hi := recs[x].rank)
       && t'[r] == t[l].(keys := InnerKeys(g, p, k)[n + 1..], kids := InnerKids(g, p, k)[n + 1..], lo := recs[x].rank,
         hi := t[r].hi)
       && t'[p] == t[p].(keys := t[p].keys[k := x])
       && (forall c :: c in t && c != l && c != r && c != p ==>
             t'[c] == if c in InnerKids(g, p, k)[n + 1..] then t[c].(parent := r)
                      else if c in t[r].kids then t[c].(parent := l)
                      else t[c])
  }

  function RecutInner(g: Tree, recs: Records, p: int, k: nat, n: nat): Tree
    requires Mergeable(g.nodes, p, k)
    requires g.nodes[g.nodes[p].kids[k]].lvl > 0 && n < |InnerKeys(g, p, k)|
      && |InnerKids(g, p, k)| == |InnerKeys(g, p, k)| + 1
    requires InnerKeys(g, p, k)[n] in recs
  {
    var l, r := g.nodes[p].kids[k], g.nodes[p].kids[k + 1];
    Link(CutInner(Merge(g, p, k), recs, l, r, n), p, k, InnerKeys(g, p, k)[n], r)
  }

  lemma MergedInner(g: Tree, p: int, k: nat)
    requires Mergeable(g.nodes, p, k) && g.nodes[g.nodes[p].kids[k]].lvl > 0
    ensures
      var l, r, g1 := g.nodes[p].kids[k], g.nodes[p].kids[k + 1], Merge(g, p, k);
      && l in g1.nodes && r !in g1.nodes && g1.root == g.root
      && g1.nodes.Keys == g.nodes.Keys - {r}
      && g1.nodes[l] == g.nodes[l].(keys := InnerKeys(g, p, k), kids := InnerKids(g, p, k), hi := g.nodes[r].hi)
      && g1.nodes[p] == g.nodes[p].(keys := Removed(g.nodes[p].keys, k), kids := Removed(g.nodes[p].kids, k + 1))
      && (forall c :: c in g.nodes && c != l && c != r && c != p ==>
            g1.nodes[c] == if c in g.nodes[r].kids then g.nodes[c].(parent := l) else g.nodes[c])
  {
    hide Removed, MergeOwners;
  }

  lemma RecutInnerShape(g: Tree, recs: Records, p: int, k: nat, n: nat)
    requires Mergeable(g.nodes, p, k) && g.nodes[g.nodes[p].kids[k]].lvl > 0
    requires n < |InnerKeys(g, p, k)| && |InnerKids(g, p, k)| == |InnerKeys(g, p, k)| + 1
      && InnerKeys(g, p, k)[n] in recs
    requires p !in InnerKids(g, p, k) && g.nodes[p].kids[k] !in InnerKids(g, p, k)
      && g.nodes[p].kids[k + 1] !in InnerKids(g, p, k)
    ensures InnerRecut(g, recs, p, k, n, RecutInner(g, recs, p, k, n))
  {
    var t := g.nodes;
    var l, r, x := t[p].kids[k], t[p].kids[k + 1], InnerKeys(g, p, k)[n];
    MergedInner(g, p, k);
    assert Inserted(Removed(t[p].keys, k), k, x) == t[p].keys[k := x];
    assert Inserted(Removed(t[p].kids, k + 1), k + 1, r) == t[p].kids;
    assert forall c :: c in InnerKids(g, p, k)[n + 1..] ==> c in InnerKids(g, p, k);
    hide Merge, Inserted, Removed, InnerKeys, InnerKids;
  }

  lemma RecutInnerOk(g: Tree, recs: Records, extra: set<RID>, p: int, k: nat, n: nat)
    requires Core(g, recs, -1, -1, extra) && p in g.nodes && g.nodes[p].lvl > 1 && k < |g.nodes[p].keys|
    requires Mergeable(g.nodes, p, k) && 0 < n < |InnerKeys(g, p, k)| - 1
    ensures g.nodes[g.nodes[p].kids[k]].lvl > 0 && |InnerKids(g, p, k)| == |InnerKeys(g, p, k)| + 1
      && InnerKeys(g, p, k)[n] in recs
    ensures Core(RecutInner(g, recs, p, k, n), recs, -1, -1, extra)
    ensures InnerRecut(g, recs, p, k, n, RecutInner(g, recs, p, k, n))
  {
    InnerSiblings(g, recs, extra, p, k);
    MergeOk(g, recs, extra, p, k);
    MergedInner(g, p, k);
    assert InnerKeys(g, p, k)[n] in InnerKeys(g, p, k);
    RecutInnerShape(g, recs, p, k, n);
    hide Core, Merge, Mergeable, InnerKeys, InnerKids, InnerRecut;
    CutInnerAndLink(Merge(g, p, k), recs, extra, p, k, g.nodes[p].kids[k], g.nodes[p].kids[k + 1], n);
  }

  lemma InnerSiblings(g: Tree, recs: Records, extra: set<RID>, p: int, k: nat)
    requires Core(g, recs, -1, -1, extra) && p in g.nodes && g.nodes[p].lvl > 1 && k < |g.nodes[p].keys|
    ensures Mergeable(g.nodes, p, k)
    ensures
      var l, r := g.nodes[p].kids[k], g.nodes[p].kids[k + 1];
      && g.nodes[l].lvl > 0 && |InnerKids(g, p, k)| == |InnerKeys(g, p, k)| + 1 && l != g.root && r >= 1
        && g.nodes[l].parent == p
      && p !in InnerKids(g, p, k) && l !in InnerKids(g, p, k) && r !in InnerKids(g, p, k)
      && (forall b :: b in InnerKeys(g, p, k) ==> b in recs)
  {
    assert NodeOk(g.nodes[p], recs);
    Siblings(g.nodes, recs, p, k);
    var l, r := g.nodes[p].kids[k], g.nodes[p].kids[k + 1];
    assert NodeOk(g.nodes[l], recs) && NodeOk(g.nodes[r], recs);
    KidsOf(g.nodes, recs, -1, -1, l);
    KidsOf(g.nodes, recs, -1, -1, r);
    hide Down, Owned, Sorted;
  }

  lemma CutInnerAndLink(g: Tree, recs: Records, extra: set<RID>, p: int, k: nat, l: int, r: int, n: nat)
    requires Core(g, recs, -1, -1, extra)
    requires l in g.nodes && g.nodes[l].lvl > 0 && 0 < n < |g.nodes[l].keys| - 1 && r !in g.nodes && r >= 1
    requires p in g.nodes && l != p && l != g.root && g.nodes[l].parent == p && k < |g.nodes[p].kids|
      && g.nodes[p].kids[k] == l
    requires |g.nodes[l].kids| == |g.nodes[l].keys| + 1
    ensures g.nodes[l].keys[n] in recs && k <= |g.nodes[p].keys|
    ensures Core(Link(CutInner(g, recs, l, r, n), p, k, g.nodes[l].keys[n], r), recs, -1, -1, extra)
  {
    CutInnerOk(g, recs, extra, l, r, n);
    CutInnerFacts(g, recs, extra, p, l, r, n);
    var x := g.nodes[l].keys[n];
    hide Core, CutInner;
    LinkOk(CutInner(g, recs, l, r, n), recs, l, r, extra + {x}, p, k, x);
    assert extra + {x} - {x} == extra;
  }

  lemma CutInnerFacts(g: Tree, recs: Records, extra: set<RID>, p: int, l: int, r: int, n: nat)
    requires Core(g, recs, -1, -1, extra) && l in g.nodes && n < |g.nodes[l].keys| && g.nodes[l].keys[n] in recs
      && r !in g.nodes
    requires |g.nodes[l].kids| == |g.nodes[l].keys| + 1 && p in g.nodes && p != l && g.nodes[l].lvl > 0
    requires g.nodes[l].parent == p
    ensures g.nodes[l].keys[n] !in extra && recs[g.nodes[l].keys[n]].value.None?
    ensures
      var g' := CutInner(g, recs, l, r, n);
      var t' := g'.nodes;
      && g'.root == g.root && l in t' && r in t' && p in t'
      && |t'[l].keys| == n && |t'[r].keys| == |g.nodes[l].keys| - n - 1
      && t'[r].lo == recs[g.nodes[l].keys[n]].rank && t'[l].parent == p
      && t'[p].kids == g.nodes[p].kids && t'[p].keys == g.nodes[p].keys
  {
    hide Core;
    NodeFacts(g, recs, -1, -1, extra, l);
    CoreKeys(g, recs, -1, -1, extra);
    assert g.nodes[l].keys[n] in g.nodes[l].keys;
  }
}
