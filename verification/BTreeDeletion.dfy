/** The restructuring steps of b_tree_delete, as values. */
module BTreeDeletion {
  import opened Common
  import opened BTreeModel

  // ---- a key leaves a leaf; its record stays live

  function RemoveKey(g: Tree, a: int, i: nat): Tree
    requires a in g.nodes && i < |g.nodes[a].keys|
  {
    var nd := g.nodes[a];
    Tree(g.root, g.nodes[a := nd.(keys := Removed(nd.keys, i))], g.owner - {nd.keys[i]}, g.lost)
  }

  lemma DeleteSorted(keys: seq<RID>, recs: Records, i: nat, lo: real, hi: real, leaf: bool)
    requires Sorted(keys, recs) && Within(keys, recs, lo, hi, leaf) && i < |keys|
    ensures Sorted(Removed(keys, i), recs) && Within(Removed(keys, i), recs, lo, hi, leaf)
    ensures forall r :: r in Removed(keys, i) <==> r in keys && r != keys[i]
  {
    DeleteAt(keys, i);
    hide Removed;
    var rest := Removed(keys, i);
    forall j | 0 <= j < |rest| ensures rest[j] != keys[i] {
      assert Rk(recs, rest[j]) != Rk(recs, keys[i]);
    }
  }

  /** Page `p` gives one record up. */
  lemma DisownRecord(t: map<int, Node>, owner: map<RID, int>, recs: Records, extra: set<RID>, p: int, x: RID,
                     t': map<int, Node>, keys: seq<RID>)
    requires Owned(t, owner, recs, extra) && p in t && x in t[p].keys
    requires forall r :: r in keys <==> r in t[p].keys && r != x
    requires t'.Keys == t.Keys && t'[p].keys == keys
    requires forall b :: b in t && b != p ==> t'[b].keys == t[b].keys
    ensures Owned(t', owner - {x}, recs, extra + {x})
  {
    forall r | r in owner && r != x ensures r in t'[owner[r]].keys {
      assert r in t[owner[r]].keys;
      assert owner[r] == p ==> r in keys;
    }
  }

  lemma RemoveKeyOk(g: Tree, recs: Records, extra: set<RID>, a: int, i: nat)
    requires Core(g, recs, -1, -1, extra)
    requires a in g.nodes && g.nodes[a].lvl == 0 && i < |g.nodes[a].keys|
    ensures Core(RemoveKey(g, a, i), recs, -1, -1, extra + {g.nodes[a].keys[i]})
  {
    hide Removed, Sorted, Within, Down, Owned, Up;
    var nd := g.nodes[a];
    assert NodeOk(nd, recs);
    DeleteSorted(nd.keys, recs, i, nd.lo, nd.hi, true);
    LeafLinks(g.nodes, recs, g.root, -1, -1, a, Removed(nd.keys, i));
    DisownRecord(g.nodes, g.owner, recs, extra, a, nd.keys[i], RemoveKey(g, a, i).nodes, Removed(nd.keys, i));
  }

  // ---- two neighbouring children merge: page `R` goes into page `L`

  /** Child k+1 of page `p` goes into child k.  Leaves just join; inner nodes take the
      separator between them as well, while a leaf separator is left unreferenced. */
  function Merge(g: Tree, p: int, k: nat): Tree
    requires p in g.nodes && k < |g.nodes[p].keys| && k + 1 < |g.nodes[p].kids|
    requires g.nodes[p].kids[k] in g.nodes && g.nodes[p].kids[k + 1] in g.nodes
  {
    var pn := g.nodes[p];
    var l, r, sep := pn.kids[k], pn.kids[k + 1], pn.keys[k];
    var L, R := g.nodes[l], g.nodes[r];
    var mid := if L.lvl == 0 then [] else [sep];
    Tree(
      g.root,
      (Reparent(g.nodes, R.kids, l) - {r})
        [l := L.(keys := L.keys + mid + R.keys, kids := L.kids + R.kids, hi := R.hi)]
        [p := pn.(keys := Removed(pn.keys, k), kids := Removed(pn.kids, k + 1))],
      MergeOwners(g.owner, R.keys, sep, l, L.lvl > 0),
      g.lost)
  }

  function MergeOwners(owner: map<RID, int>, moved: seq<RID>, sep: RID, l: int, inner: bool): (m: map<RID, int>)
    ensures m.Keys == if inner then owner.Keys else owner.Keys - {sep}
  {
    map q | q in owner && (q != sep || inner) :: if q in moved || q == sep then l else owner[q]
  }

  /** `M` is `L` followed by `R`, with the bounds of all children kept. */
  ghost predicate JoinedAt(L: Node, R: Node, recs: Records, M: Node) {
    && |M.kids| == |L.kids| + |R.kids|
    && (forall i :: 0 <= i < |L.kids| ==>
      M.kids[i] == L.kids[i] && Lo(M, recs, i) == Lo(L, recs, i) && Hi(M, recs, i) == Hi(L, recs, i))
    && (forall i :: 0 <= i < |R.kids| ==>
          && M.kids[|L.kids| + i] == R.kids[i]
          && Lo(M, recs, |L.kids| + i) == Lo(R, recs, i) && Hi(M, recs, |L.kids| + i) == Hi(R, recs, i))
    && M.lvl == L.lvl && M.parent == L.parent && M.lo == L.lo && M.hi == R.hi
  }

  ghost predicate MergedTree(t: map<int, Node>, p: int, k: nat, l: int, r: int, M: Node, P: Node, t': map<int, Node>) {
    && p in t && l in t && r in t && p != l && p != r && l != r
    && k < |t[p].keys| && |t[p].kids| == |t[p].keys| + 1 && t[p].kids[k] == l && t[p].kids[k + 1] == r
    && t'.Keys == t.Keys - {r} && t'[l] == M && t'[p] == P
    && P == t[p].(keys := P.keys, kids := P.kids) && P.keys == Removed(t[p].keys, k)
      && P.kids == Removed(t[p].kids, k + 1)
    && forall c :: c in t && c != l && c != r && c != p ==> t'[c] == if c in t[r].kids then t[c].(parent := l) else t[c]
  }

  lemma MergeDownOther(t: map<int, Node>, recs: Records, p: int, k: nat, l: int, r: int, M: Node, P: Node,
      t': map<int, Node>, b: int, i: nat)
    requires Down(t, recs, -1, -1) && -1 !in t
    requires MergedTree(t, p, k, l, r, M, P, t') && JoinedAt(t[l], t[r], recs, M)
    requires b in t' && b != l && b != p && i < |t'[b].kids|
    ensures KidOk(t', recs, -1, -1, b, i)
  {
    hide Rk;
    KidsOf(t, recs, -1, -1, r);
    KidsOf(t, recs, -1, -1, p);
    assert l in t[p].kids && r in t[p].kids;
    assert KidOk(t, recs, -1, -1, b, i);
  }

  lemma MergeDownJoined(t: map<int, Node>, recs: Records, p: int, k: nat, l: int, r: int, M: Node, P: Node,
      t': map<int, Node>, i: nat)
    requires Down(t, recs, -1, -1) && -1 !in t
    requires MergedTree(t, p, k, l, r, M, P, t') && JoinedAt(t[l], t[r], recs, M)
    requires i < |M.kids|
    ensures KidOk(t', recs, -1, -1, l, i)
  {
    hide Rk, Lo, Hi;
    KidsOf(t, recs, -1, -1, r);
    KidsOf(t, recs, -1, -1, p);
    assert l in t[p].kids && r in t[p].kids;
    if i < |t[l].kids| {
      assert KidOk(t, recs, -1, -1, l, i);
    } else {
      assert KidOk(t, recs, -1, -1, r, i - |t[l].kids|);
      assert t[r].kids[i - |t[l].kids|] in t[r].kids;
    }
  }

  lemma DroppedBounds(nd: Node, recs: Records, k: nat, P: Node, i: nat)
    requires k < |nd.keys| && |nd.kids| == |nd.keys| + 1
    requires P == nd.(keys := P.keys, kids := P.kids) && P.keys == Removed(nd.keys, k)
      && P.kids == Removed(nd.kids, k + 1)
    requires i < |P.kids|
    ensures
      var j := if i <= k then i else i + 1;
      && P.kids[i] == nd.kids[j]
      && Lo(P, recs, i) == Lo(nd, recs, j)
      && Hi(P, recs, i) == Hi(nd, recs, if i < k then i else i + 1)
  {
    DeleteAt(nd.keys, k);
    DeleteAt(nd.kids, k + 1);
    hide Removed, Rk;
  }

  lemma MergeDownParent(t: map<int, Node>, recs: Records, p: int, k: nat, l: int, r: int, M: Node, P: Node,
      t': map<int, Node>, i: nat)
    requires Down(t, recs, -1, -1) && -1 !in t
    requires MergedTree(t, p, k, l, r, M, P, t') && JoinedAt(t[l], t[r], recs, M)
    requires i < |P.kids|
    ensures KidOk(t', recs, -1, -1, p, i)
  {
    KidsOf(t, recs, -1, -1, r);
    KidsOf(t, recs, -1, -1, p);
    DroppedBounds(t[p], recs, k, P, i);
    hide Removed, Rk, Lo, Hi;
    assert KidOk(t, recs, -1, -1, p, k + 1);
    assert KidOk(t, recs, -1, -1, p, if i <= k then i else i + 1);
  }

  lemma MergeDown(t: map<int, Node>, recs: Records, p: int, k: nat, l: int, r: int, M: Node, P: Node,
      t': map<int, Node>)
    requires Down(t, recs, -1, -1) && -1 !in t
    requires MergedTree(t, p, k, l, r, M, P, t') && JoinedAt(t[l], t[r], recs, M) && Distinct(M.kids)
      && Distinct(P.kids)
    ensures Down(t', recs, -1, -1)
  {
    hide KidOk, JoinedAt, Removed;
    forall b, i | b in t' && 0 <= i < |t'[b].kids| ensures KidOk(t', recs, -1, -1, b, i) {
      if b == l {
        MergeDownJoined(t, recs, p, k, l, r, M, P, t', i);
      } else if b == p {
        MergeDownParent(t, recs, p, k, l, r, M, P, t', i);
      } else {
        MergeDownOther(t, recs, p, k, l, r, M, P, t', b, i);
      }
    }
  }

  lemma MergeUp(t: map<int, Node>, recs: Records, root: int, p: int, k: nat, l: int, r: int, M: Node, P: Node,
      t': map<int, Node>)
    requires Down(t, recs, -1, -1) && Up(t, root, -1) && RootOk(t, root, -1, -1) && -1 !in t
    requires MergedTree(t, p, k, l, r, M, P, t') && M.parent == t[l].parent && M.lo == t[l].lo && M.hi == t[r].hi
    requires forall c :: c in M.kids <==> c in t[l].kids || c in t[r].kids
    requires forall c :: c in t[p].kids && c != r ==> c in P.kids
    ensures Up(t', root, -1) && RootOk(t', root, -1, -1)
  {
    KidsOf(t, recs, -1, -1, r);
    KidsOf(t, recs, -1, -1, l);
    KidsOf(t, recs, -1, -1, p);
    hide Down, KidOk, Removed;
    assert l in t[p].kids && r in t[p].kids;
    forall c | c in t' && c != root ensures t'[c].parent in t' && c in t'[t'[c].parent].kids {
      assert t[c].parent in t && c in t[t[c].parent].kids;
    }
  }

  /** The records of a merge: those of `r` go to `l`; the separator goes there as well when the
      nodes are inner ones, else nobody references it any more. */
  lemma MergeReferences(t: map<int, Node>, owner: map<RID, int>, p: int, l: int, r: int, sep: RID, inner: bool,
      t': map<int, Node>)
    requires References(t, owner) && p in t && l in t && r in t && p != l && p != r && l != r
    requires sep in t[p].keys
    requires t'.Keys == t.Keys - {r}
    requires forall q :: q in t'[p].keys <==> q in t[p].keys && q != sep
    requires forall q :: q in t'[l].keys <==> q in t[l].keys || q in t[r].keys || (inner && q == sep)
    requires forall b :: b in t' && b != p && b != l ==> t'[b].keys == t[b].keys
    ensures References(t', MergeOwners(owner, t[r].keys, sep, l, inner))
  {
    var owner' := MergeOwners(owner, t[r].keys, sep, l, inner);
    assert owner[sep] == p;
    forall a, q | a in t' && q in t'[a].keys ensures q in owner' && owner'[q] == a {
      if a != l && a != p {
        assert q in t[a].keys;
      }
    }
    forall q | q in owner' ensures owner'[q] in t' && q in t'[owner'[q]].keys {
      assert q in t[owner[q]].keys;
      if owner[q] == p && q != sep {
        assert q in t'[p].keys;
      }
    }
  }

  lemma JoinSorted(a: seq<RID>, mid: seq<RID>, b: seq<RID>, recs: Records, lo: real, cut: real, hi: real, leaf: bool)
    requires Sorted(a, recs) && Within(a, recs, lo, cut, leaf)
    requires Sorted(b, recs) && Within(b, recs, cut, hi, leaf)
    requires lo <= cut <= hi
    requires
      if mid == [] then leaf
      else |mid| == 1 && !leaf && mid[0] in recs && Rk(recs, mid[0]) == cut && recs[mid[0]].value.None?
    requires mid != [] ==> lo < cut < hi
    ensures Sorted(a + mid + b, recs) && Within(a + mid + b, recs, lo, hi, leaf)
  {
    hide Rk;
    forall i | 0 <= i < |a| ensures a[i] in a {
    }
    forall i | 0 <= i < |b| ensures b[i] in b {
    }
  }

  ghost predicate Mergeable(t: map<int, Node>, p: int, k: nat) {
    && p in t && k < |t[p].keys| && |t[p].kids| == |t[p].keys| + 1
    && t[p].kids[k] in t && t[p].kids[k + 1] in t && t[p].kids[k] != t[p].kids[k + 1]
    && p != t[p].kids[k] && p != t[p].kids[k + 1]
  }

  /** What the two children and the separator between them have to do with one another. */
  lemma Siblings(t: map<int, Node>, recs: Records, p: int, k: nat)
    requires Nodes(t, recs) && Down(t, recs, -1, -1) && p in t && k < |t[p].keys| && t[p].lvl > 0
    ensures Mergeable(t, p, k)
    ensures
      var L, R := t[t[p].kids[k]], t[t[p].kids[k + 1]];
      && L.lvl == R.lvl == t[p].lvl - 1 && L.parent == R.parent == p
      && L.hi == R.lo == Rk(recs, t[p].keys[k])
      && L.lo <= L.hi <= R.hi && (L.lvl > 0 ==> L.lo < L.hi < R.hi)
      && t[p].keys[k] in recs && recs[t[p].keys[k]].value.None?
      && (forall c :: c in L.kids ==> c !in R.kids)
  {
    assert NodeOk(t[p], recs);
    KidsOf(t, recs, -1, -1, p);
    assert KidOk(t, recs, -1, -1, p, k) && KidOk(t, recs, -1, -1, p, k + 1);
    assert t[p].keys[k] in t[p].keys;
    SiblingBounds(t[p], recs, k);
    KidsOf(t, recs, -1, -1, t[p].kids[k]);
    KidsOf(t, recs, -1, -1, t[p].kids[k + 1]);
  }

  lemma SiblingBounds(nd: Node, recs: Records, k: nat)
    requires NodeOk(nd, recs) && nd.lvl > 0 && k < |nd.keys|
    ensures Lo(nd, recs, k) < Hi(nd, recs, k) == Lo(nd, recs, k + 1) < Hi(nd, recs, k + 1)
  {
    assert nd.keys[k] in nd.keys;
  }

  lemma JoinNode(L: Node, R: Node, recs: Records, sep: RID)
    requires NodeOk(L, recs) && NodeOk(R, recs) && L.lvl == R.lvl && L.hi == R.lo == Rk(recs, sep)
    requires sep in recs && recs[sep].value.None? && L.lo <= L.hi <= R.hi && (L.lvl > 0 ==> L.lo < L.hi < R.hi)
    ensures
      var mid := if L.lvl == 0 then [] else [sep];
      var M := L.(keys := L.keys + mid + R.keys, kids := L.kids + R.kids, hi := R.hi);
      NodeOk(M, recs) && JoinedAt(L, R, recs, M)
  {
    hide Sorted, Within, Rk;
    JoinSorted(L.keys, if L.lvl == 0 then [] else [sep], R.keys, recs, L.lo, L.hi, R.hi, L.lvl == 0);
    JoinBounds(L, R, recs, sep);
  }

  lemma JoinBounds(L: Node, R: Node, recs: Records, sep: RID)
    requires NodeOk(L, recs) && NodeOk(R, recs) && L.lvl == R.lvl && L.hi == R.lo == Rk(recs, sep)
    ensures
      var mid := if L.lvl == 0 then [] else [sep];
      JoinedAt(L, R, recs, L.(keys := L.keys + mid + R.keys, kids := L.kids + R.kids, hi := R.hi))
  {
    hide Sorted, Within, Rk;
  }

  /** The new node of a merge. */
  lemma MergeNode(g: Tree, recs: Records, p: int, k: nat)
    requires Nodes(g.nodes, recs) && Down(g.nodes, recs, -1, -1) && p in g.nodes && k < |g.nodes[p].keys|
      && g.nodes[p].lvl > 0
    ensures Mergeable(g.nodes, p, k)
    ensures
      var t, M := g.nodes, Merge(g, p, k).nodes[g.nodes[p].kids[k]];
      && NodeOk(M, recs) && JoinedAt(t[t[p].kids[k]], t[t[p].kids[k + 1]], recs, M)
      && NodeOk(Merge(g, p, k).nodes[p], recs)
  {
    Siblings(g.nodes, recs, p, k);
    var t := g.nodes;
    var l, r := t[p].kids[k], t[p].kids[k + 1];
    assert NodeOk(t[p], recs) && NodeOk(t[l], recs) && NodeOk(t[r], recs);
    hide Down, Sorted, Within, Rk, NodeOk, JoinedAt;
    JoinNode(t[l], t[r], recs, t[p].keys[k]);
    DropKey(t[p], recs, k);
  }

  lemma DropKey(nd: Node, recs: Records, k: nat)
    requires NodeOk(nd, recs) && nd.lvl > 0 && k < |nd.keys|
    ensures NodeOk(nd.(keys := Removed(nd.keys, k), kids := Removed(nd.kids, k + 1)), recs)
  {
    DeleteSorted(nd.keys, recs, k, nd.lo, nd.hi, false);
    DeleteAt(nd.keys, k);
    DeleteAt(nd.kids, k + 1);
    hide Removed, Sorted, Within;
  }

  lemma MergeShape(g: Tree, recs: Records, p: int, k: nat)
    requires Nodes(g.nodes, recs) && Down(g.nodes, recs, -1, -1) && p in g.nodes && k < |g.nodes[p].keys|
      && g.nodes[p].lvl > 0
    ensures Mergeable(g.nodes, p, k)
    ensures
      var t, t' := g.nodes, Merge(g, p, k).nodes;
      var l, r := t[p].kids[k], t[p].kids[k + 1];
      MergedTree(t, p, k, l, r, t'[l], t'[p], t')
  {
    Siblings(g.nodes, recs, p, k);
    KidsOf(g.nodes, recs, -1, -1, g.nodes[p].kids[k + 1]);
    hide Down, Nodes, Removed;
  }

  lemma MergeNodes(t: map<int, Node>, recs: Records, p: int, k: nat, l: int, r: int, M: Node, P: Node,
      t': map<int, Node>)
    requires Nodes(t, recs) && MergedTree(t, p, k, l, r, M, P, t') && NodeOk(M, recs) && NodeOk(P, recs)
    ensures Nodes(t', recs)
  {
    hide Sorted, Within, Removed;
  }

  lemma DistinctKids(t: map<int, Node>, recs: Records, p: int, k: nat, l: int, r: int, M: Node, P: Node,
      t': map<int, Node>)
    requires Down(t, recs, -1, -1) && MergedTree(t, p, k, l, r, M, P, t') && JoinedAt(t[l], t[r], recs, M)
    ensures Distinct(M.kids) && Distinct(P.kids)
    ensures forall c :: c in M.kids <==> c in t[l].kids || c in t[r].kids
    ensures forall c :: c in t[p].kids && c != r ==> c in P.kids
  {
    KidsOf(t, recs, -1, -1, l);
    KidsOf(t, recs, -1, -1, r);
    DeleteAt(t[p].kids, k + 1);
    hide Removed, KidOk, Lo, Hi;
    assert M.kids == t[l].kids + t[r].kids;
    forall i, j | 0 <= i < |t[l].kids| && 0 <= j < |t[r].kids| ensures t[l].kids[i] != t[r].kids[j] {
      assert t[l].kids[i] in t[l].kids && t[r].kids[j] in t[r].kids;
    }
  }

  lemma MergeOwned(g: Tree, recs: Records, extra: set<RID>, p: int, k: nat)
    requires Owned(g.nodes, g.owner, recs, extra) && Mergeable(g.nodes, p, k)
    requires NodeOk(g.nodes[p], recs) && g.nodes[p].lvl > 0
    ensures
      var sep, inner := g.nodes[p].keys[k], g.nodes[g.nodes[p].kids[k]].lvl > 0;
      Owned(Merge(g, p, k).nodes, Merge(g, p, k).owner, recs, if inner then extra else extra + {sep})
  {
    hide Merge, MergeOwners, References, NodeOk;
    var t := g.nodes;
    var l, r, sep, inner := t[p].kids[k], t[p].kids[k + 1], t[p].keys[k], t[t[p].kids[k]].lvl > 0;
    OwnerOf(t, g.owner, p, k);
    MergeMembers(g, recs, p, k);
    var owner' := MergeOwners(g.owner, t[r].keys, sep, l, inner);
    MergeReferences(t, g.owner, p, l, r, sep, inner, Merge(g, p, k).nodes);
    MergeKeys(g.owner.Keys, owner'.Keys, recs.Keys, extra, sep, inner);
  }

  lemma MergeKeys(owned: set<RID>, owned': set<RID>, recs: set<RID>, extra: set<RID>, sep: RID, inner: bool)
    requires owned !! extra && owned + extra == recs && sep in owned
    requires owned' == if inner then owned else owned - {sep}
    ensures
      var extra' := if inner then extra else extra + {sep};
      owned' !! extra' && owned' + extra' == recs
  {
  }

  lemma MergeMembers(g: Tree, recs: Records, p: int, k: nat)
    requires Mergeable(g.nodes, p, k) && NodeOk(g.nodes[p], recs) && g.nodes[p].lvl > 0
    ensures
      var t, t' := g.nodes, Merge(g, p, k).nodes;
      var l, r, sep := t[p].kids[k], t[p].kids[k + 1], t[p].keys[k];
      && t'.Keys == t.Keys - {r}
      && (forall q :: q in t'[p].keys <==> q in t[p].keys && q != sep)
      && (forall q :: q in t'[l].keys <==> q in t[l].keys || q in t[r].keys || (t[l].lvl > 0 && q == sep))
      && (forall b :: b in t' && b != p && b != l ==> t'[b].keys == t[b].keys)
      && Merge(g, p, k).owner == MergeOwners(g.owner, t[r].keys, sep, l, t[l].lvl > 0)
  {
    DeleteSorted(g.nodes[p].keys, recs, k, g.nodes[p].lo, g.nodes[p].hi, false);
    hide Removed, MergeOwners, NodeOk;
  }

  lemma OwnerOf(t: map<int, Node>, owner: map<RID, int>, a: int, i: nat)
    requires References(t, owner) && a in t && i < |t[a].keys|
    ensures t[a].keys[i] in owner && owner[t[a].keys[i]] == a
  {
    assert t[a].keys[i] in t[a].keys;
  }

  lemma MergeOk(g: Tree, recs: Records, extra: set<RID>, p: int, k: nat)
    requires Core(g, recs, -1, -1, extra)
    requires p in g.nodes && k < |g.nodes[p].keys| && g.nodes[p].lvl > 0
    ensures Mergeable(g.nodes, p, k)
    ensures
      var sep := g.nodes[p].keys[k];
      Core(Merge(g, p, k), recs, -1, -1, if g.nodes[p].lvl == 1 then extra + {sep} else extra)
  {
    var t := g.nodes;
    assert -1 !in t;
    assert NodeOk(t[p], recs);
    Siblings(t, recs, p, k);
    MergeShape(g, recs, p, k);
    MergeNode(g, recs, p, k);
    MergeOwned(g, recs, extra, p, k);
    var t' := Merge(g, p, k).nodes;
    var l, r := t[p].kids[k], t[p].kids[k + 1];
    hide Merge, Nodes, Down, Up, Owned, MergedTree, JoinedAt, NodeOk, RootOk;
    MergeNodes(t, recs, p, k, l, r, t'[l], t'[p], t');
    DistinctKids(t, recs, p, k, l, r, t'[l], t'[p], t');
    MergeDown(t, recs, p, k, l, r, t'[l], t'[p], t');
    MergeUp(t, recs, g.root, p, k, l, r, t'[l], t'[p], t');
  }

  // ---- an empty root hands over to its only child

  function Collapse(g: Tree): Tree
    requires g.root in g.nodes && |g.nodes[g.root].kids| > 0 && g.nodes[g.root].kids[0] in g.nodes
  {
    var c := g.nodes[g.root].kids[0];
    Tree(c, (g.nodes - {g.root})[c := g.nodes[c].(parent := -1)], g.owner, g.lost)
  }

  lemma CollapseLinks(t: map<int, Node>, recs: Records, root: int, c: int, t': map<int, Node>)
    requires Down(t, recs, -1, -1) && Up(t, root, -1) && RootOk(t, root, -1, -1) && -1 !in t
    requires t[root].kids == [c] && t[root].keys == [] && c in t
    requires t' == (t - {root})[c := t[c].(parent := -1)]
    ensures Down(t', recs, -1, -1) && Up(t', c, -1) && RootOk(t', c, -1, -1)
  {
    assert KidOk(t, recs, -1, -1, root, 0);
    KidsOf(t, recs, -1, -1, root);
    forall b, i | b in t' && 0 <= i < |t'[b].kids| ensures KidOk(t', recs, -1, -1, b, i) {
      assert KidOk(t, recs, -1, -1, b, i);
    }
  }

  lemma CollapseOk(g: Tree, recs: Records, extra: set<RID>)
    requires Core(g, recs, -1, -1, extra)
    requires g.nodes[g.root].lvl > 0 && g.nodes[g.root].keys == []
    ensures |g.nodes[g.root].kids| == 1 && g.nodes[g.root].kids[0] in g.nodes && g.nodes[g.root].kids[0] != g.root
    ensures Core(Collapse(g), recs, -1, -1, extra)
  {
    var t, root := g.nodes, g.root;
    assert NodeOk(t[root], recs);
    var c := t[root].kids[0];
    KidsOf(t, recs, -1, -1, root);
    assert t[root].kids == [c];
    hide Down, Up, Owned, RootOk, NodeOk;
    CollapseLinks(t, recs, root, c, Collapse(g).nodes);
    CollapseOwned(g, recs, extra);
    CollapseNodes(g, recs);
  }

  lemma CollapseNodes(g: Tree, recs: Records)
    requires Nodes(g.nodes, recs) && g.root in g.nodes && |g.nodes[g.root].kids| > 0
      && g.nodes[g.root].kids[0] in g.nodes
    ensures Nodes(Collapse(g).nodes, recs)
  {
    hide Sorted, Within;
  }

  lemma CollapseOwned(g: Tree, recs: Records, extra: set<RID>)
    requires Owned(g.nodes, g.owner, recs, extra) && g.root in g.nodes && g.nodes[g.root].keys == []
    requires |g.nodes[g.root].kids| > 0 && g.nodes[g.root].kids[0] in g.nodes && g.nodes[g.root].kids[0] != g.root
    ensures Owned(Collapse(g).nodes, g.owner, recs, extra)
  {
    assert Collapse(g).nodes.Keys == g.nodes.Keys - {g.root};
  }

  // ---- records come and go without the tree noticing

  /** The handlers create and delete only records that the tree does not reference. */
  lemma RecordsChange(g: Tree, recs: Records, left: int, right: int, extra: set<RID>, recs': Records, extra': set<RID>)
    requires Core(g, recs, left, right, extra)
    requires forall r :: r in g.owner ==> r in recs' && recs'[r] == recs[r]
    requires g.owner.Keys !! extra' && g.owner.Keys + extra' == recs'.Keys
    ensures Core(g, recs', left, right, extra')
  {
    hide Nodes, Down, References, Agree, Up, RootOk, Pending;
    AllAgree(g.nodes, g.owner, recs, recs', extra);
    NodesChange(g.nodes, recs, recs');
    DownChange(g.nodes, recs, recs', left, right);
  }

  lemma AllAgree(t: map<int, Node>, owner: map<RID, int>, recs: Records, recs': Records, extra: set<RID>)
    requires Owned(t, owner, recs, extra) && forall r :: r in owner ==> r in recs' && recs'[r] == recs[r]
    ensures forall a :: a in t ==> Agree(t[a].keys, recs, recs')
  {
  }

  lemma NodesChange(t: map<int, Node>, recs: Records, recs': Records)
    requires Nodes(t, recs) && forall a :: a in t ==> Agree(t[a].keys, recs, recs')
    ensures Nodes(t, recs')
  {
    hide Agree, NodeOk;
    forall a | a in t ensures NodeOk(t[a], recs') {
      SameNode(t[a], recs, recs');
    }
  }

  lemma DownChange(t: map<int, Node>, recs: Records, recs': Records, left: int, right: int)
    requires Down(t, recs, left, right) && forall a :: a in t ==> Agree(t[a].keys, recs, recs')
    ensures Down(t, recs', left, right)
  {
    hide Agree, Lo, Hi;
    forall a, i | a in t && 0 <= i < |t[a].kids| ensures KidOk(t, recs', left, right, a, i) {
      assert KidOk(t, recs, left, right, a, i);
      SameBounds(t[a], recs, recs', i);
    }
  }

  ghost predicate Agree(keys: seq<RID>, recs: Records, recs': Records) {
    forall r :: r in keys ==> r in recs && r in recs' && recs'[r] == recs[r]
  }

  lemma SameNode(nd: Node, recs: Records, recs': Records)
    requires NodeOk(nd, recs) && Agree(nd.keys, recs, recs')
    ensures NodeOk(nd, recs')
  {
    forall i | 0 <= i < |nd.keys| ensures Rk(recs, nd.keys[i]) == Rk(recs', nd.keys[i]) {
      assert nd.keys[i] in nd.keys;
    }
  }

  lemma SameBounds(nd: Node, recs: Records, recs': Records, i: nat)
    requires Agree(nd.keys, recs, recs')
    ensures Lo(nd, recs, i) == Lo(nd, recs', i) && Hi(nd, recs, i) == Hi(nd, recs', i)
  {
    assert i < |nd.keys| ==> nd.keys[i] in nd.keys;
    assert 0 < i <= |nd.keys| ==> nd.keys[i - 1] in nd.keys;
  }
}
