/** Each step of the insertion and deletion loops at once: the tree stays sound, the nodes keep
    their fill, and the pages written show the new tree. */
module BTreeSteps {
  import opened Common
  import opened BTreeModel
  import opened BTreePages
  import opened BTreeSearch

  /** The records that are entries, not copies of keys. */
  ghost function Entries(recs: Records): Records { map r | r in recs && recs[r].value.Some? :: recs[r] }

  // ---- insertion into a leaf

  lemma AddedKey(g: Tree, recs: Records, a: int, i: nat, r: RID)
    requires WellFormed(g, recs, {r}) && r in recs && recs[r].value.Some?
    requires a in g.nodes && g.nodes[a].lvl == 0 && g.nodes[a].lo <= Rk(recs, r) < g.nodes[a].hi
    requires Gap(g.nodes[a].keys, recs, Rk(recs, r), i)
    ensures Core(AddKey(g, a, i, r), recs, -1, -1, {})
    ensures |g.nodes[a].keys| < 2 * DEGREE - 1 ==> WellFormed(AddKey(g, a, i, r), recs, {})
  {
    AddKeyOk(g, recs, {r}, a, i, r);
    assert {r} - {r} == {};
    hide Core;
  }

  lemma AddedKeyPage(view: seq<BPage>, g: Tree, free: seq<int>, a: int, i: nat, r: RID, p: BPage)
    requires PagesOk(view, g, free, {}) && a in g.nodes && i <= |g.nodes[a].keys| < 2 * DEGREE - 1 && 0 < a < |view|
    requires Proper(p) && view[a].BNode? && p == view[a].(n := |g.nodes[a].keys| + 1, row_ptr := p.row_ptr)
    requires p.row_ptr[..p.n] == Inserted(g.nodes[a].keys, i, r) && g.nodes[a].lvl == 0
    ensures PagesOk(view[a := p], AddKey(g, a, i, r), free, {})
  {
    NodePage(view, g, free, {}, a);
    InsertAt(g.nodes[a].keys, i, r);
    hide Inserted;
    var g' := AddKey(g, a, i, r);
    assert Shows(p, g'.nodes[a]);
    hide Shows, Queue, Conserved;
    Rewrite(view, g, free, {}, view[a := p], g', {});
  }

  /** A leaf split: the new key goes in and page `y` takes the upper DEGREE keys. */
  function SplitLeaf(g: Tree, recs: Records, a: int, y: int, i: nat, r: RID): Tree
    requires a in g.nodes && i <= |g.nodes[a].keys| == 2 * DEGREE - 1 && Inserted(g.nodes[a].keys, i, r)[DEGREE] in recs
  {
    CutLeaf(AddKey(g, a, i, r), recs, a, y, DEGREE)
  }

  lemma SplitLeafOk(g: Tree, recs: Records, a: int, y: int, i: nat, r: RID, top: nat)
    requires WellFormed(g, recs, {r}) && r in recs && recs[r].value.Some?
    requires a in g.nodes && g.nodes[a].lvl == 0 && g.nodes[a].lo <= Rk(recs, r) < g.nodes[a].hi
    requires Gap(g.nodes[a].keys, recs, Rk(recs, r), i)
    requires |g.nodes[a].keys| == 2 * DEGREE - 1 && y !in g.nodes && y >= 1
    requires forall c :: c in g.nodes ==> g.nodes[c].lvl <= top
    ensures Inserted(g.nodes[a].keys, i, r)[DEGREE] in recs
    ensures
      var g' := SplitLeaf(g, recs, a, y, i, r);
      && Core(g', recs, a, y, {}) && Fill(g'.nodes, g'.root, -1, -1)
      && g'.nodes[y].lo == Rk(recs, Inserted(g.nodes[a].keys, i, r)[DEGREE])
      && (forall c :: c in g'.nodes ==> g'.nodes[c].lvl <= top) && |g'.nodes[a].keys| >= DEGREE - 1
  {
    AddedKey(g, recs, a, i, r);
    InsertAt(g.nodes[a].keys, i, r);
    hide Inserted, Core, CutLeaf;
    CutLeafOk(AddKey(g, a, i, r), recs, {}, a, y, DEGREE);
    SplitLeafFill(g, recs, a, y, i, r, top);
  }

  lemma SplitLeafFill(g: Tree, recs: Records, a: int, y: int, i: nat, r: RID, top: nat)
    requires Fill(g.nodes, g.root, -1, -1) && a in g.nodes && g.nodes[a].lvl == 0
      && i <= |g.nodes[a].keys| == 2 * DEGREE - 1
    requires Inserted(g.nodes[a].keys, i, r)[DEGREE] in recs && y !in g.nodes && g.root in g.nodes
    requires forall c :: c in g.nodes ==> g.nodes[c].lvl <= top
    ensures
      var g' := SplitLeaf(g, recs, a, y, i, r);
      && Fill(g'.nodes, g'.root, -1, -1) && y in g'.nodes
      && g'.nodes[y].lo == Rk(recs, Inserted(g.nodes[a].keys, i, r)[DEGREE])
      && (forall c :: c in g'.nodes ==> g'.nodes[c].lvl <= top) && |g'.nodes[a].keys| >= DEGREE - 1
  {
    InsertAt(g.nodes[a].keys, i, r);
    hide Inserted;
  }

  lemma SplitLeafPages(view: seq<BPage>, g: Tree, recs: Records, free: seq<int>, a: int, y: int, i: nat, r: RID,
      p: BPage, q: BPage)
    requires PagesOk(view, g, free, {y}) && a in g.nodes && i <= |g.nodes[a].keys| == 2 * DEGREE - 1
      && g.nodes[a].lvl == 0
    requires 0 < a < |view| && 0 < y < |view| && y !in g.nodes && view[a].BNode?
    requires Inserted(g.nodes[a].keys, i, r)[DEGREE] in recs
    requires Proper(p) && p == view[a].(n := DEGREE, row_ptr := p.row_ptr)
    requires Proper(q) && q.n == DEGREE && q.parent == p.parent && q.leaf
    requires p.row_ptr[..DEGREE] == Inserted(g.nodes[a].keys, i, r)[..DEGREE]
    requires q.row_ptr[..DEGREE] == Inserted(g.nodes[a].keys, i, r)[DEGREE..]
    ensures PagesOk(view[y := q][a := p], SplitLeaf(g, recs, a, y, i, r), free, {})
    ensures Shows(p, SplitLeaf(g, recs, a, y, i, r).nodes[a]) && Shows(q, SplitLeaf(g, recs, a, y, i, r).nodes[y])
  {
    NodePage(view, g, free, {y}, a);
    HeldPage(view, g, free, {y}, y);
    InsertAt(g.nodes[a].keys, i, r);
    hide Inserted;
    var g' := SplitLeaf(g, recs, a, y, i, r);
    assert Shows(p, g'.nodes[a]);
    assert Shows(q, g'.nodes[y]);
    hide Shows, Queue, Conserved;
    Rewrite(view, g, free, {y}, view[y := q][a := p], g', {});
  }

  // ---- the parent of a pending page has room for it

  lemma LinkedOk(g: Tree, recs: Records, left: int, right: int, p: int, i: nat, x: RID, top: nat)
    requires Core(g, recs, left, right, {x}) && Fill(g.nodes, g.root, -1, -1) && right != -1 && left != g.root
    requires p in g.nodes && p == g.nodes[left].parent
    requires x in recs && Rk(recs, x) == g.nodes[right].lo && recs[x].value.None?
    requires LowerBound(g.nodes[p].keys, recs, Rk(recs, x), i)
    requires forall c :: c in g.nodes ==> g.nodes[c].lvl <= top
    ensures i < |g.nodes[p].kids| == |g.nodes[p].keys| + 1
    ensures Core(Link(g, p, i, x, right), recs, -1, -1, {})
    ensures |g.nodes[p].keys| < 2 * DEGREE - 1 ==> WellFormed(Link(g, p, i, x, right), recs, {})
    ensures g.nodes[p].lvl == g.nodes[left].lvl + 1 && right in g.nodes && left in g.nodes
    ensures g.nodes[p].kids[i] == left && left != p && right != p && right !in g.nodes[p].kids
  {
    PendingFacts(g, recs, left, right, {x});
    NodeFacts(g, recs, left, right, {x}, p);
    LinkPosition(g, recs, left, right, {x}, p, i, Rk(recs, x));
    LinkKid(g, recs, left, right, {x}, p, i);
    LinkOk(g, recs, left, right, {x}, p, i, x);
    assert {x} - {x} == {};
    InsertAt(g.nodes[p].keys, i, x);
    hide Core, Inserted;
  }

  lemma PendingFacts(g: Tree, recs: Records, left: int, right: int, extra: set<RID>)
    requires Core(g, recs, left, right, extra) && Fill(g.nodes, g.root, -1, -1) && right != -1 && left != g.root
    ensures left in g.nodes && right in g.nodes && left != right
    ensures |g.nodes[left].keys| > 0 && |g.nodes[right].keys| > 0
    ensures g.nodes[left].parent in g.nodes && g.nodes[right].parent == g.nodes[left].parent
      && g.nodes[left].lvl == g.nodes[right].lvl
  {
  }

  lemma LinkKid(g: Tree, recs: Records, left: int, right: int, extra: set<RID>, p: int, i: nat)
    requires Core(g, recs, left, right, extra) && p in g.nodes && i < |g.nodes[p].kids| && g.nodes[p].kids[i] == left
      && left in g.nodes
    requires g.nodes[left].lvl == if right in g.nodes then g.nodes[right].lvl else 0
    requires right in g.nodes
    ensures g.nodes[p].lvl == g.nodes[left].lvl + 1 && |g.nodes[p].kids| == |g.nodes[p].keys| + 1 && left != p
      && right != p
    ensures right !in g.nodes[p].kids
  {
    NodeFacts(g, recs, left, right, extra, p);
    KidsOf(g.nodes, recs, left, right, p);
  }

  lemma LinkedPages(view: seq<BPage>, g: Tree, free: seq<int>, right: int, p: int, i: nat, x: RID, page: BPage)
    requires PagesOk(view, g, free, {}) && p in g.nodes && i < |g.nodes[p].kids| == |g.nodes[p].keys| + 1
      && |g.nodes[p].keys| < 2 * DEGREE - 1
    requires 0 < p < |view| && view[p].BNode? && g.nodes[p].lvl > 0
    requires Proper(page) && page == view[p].(n := |g.nodes[p].keys| + 1, row_ptr := page.row_ptr, child := page.child)
    requires page.row_ptr[..page.n] == Inserted(g.nodes[p].keys, i, x)
    requires page.child[..page.n + 1] == Inserted(g.nodes[p].kids, i + 1, right)
    ensures PagesOk(view[p := page], Link(g, p, i, x, right), free, {})
  {
    NodePage(view, g, free, {}, p);
    InsertAt(g.nodes[p].keys, i, x);
    hide Inserted;
    var g' := Link(g, p, i, x, right);
    assert Shows(page, g'.nodes[p]);
    hide Shows, Queue, Conserved;
    Rewrite(view, g, free, {}, view[p := page], g', {});
  }

  // ---- the parent of a pending page is full: it splits as well

  function SplitInner(g: Tree, recs: Records, p: int, i: nat, x: RID, right: int, y: int): Tree
    requires p in g.nodes && i < |g.nodes[p].kids| == 2 * DEGREE && |g.nodes[p].keys| == 2 * DEGREE - 1
    requires Inserted(g.nodes[p].keys, i, x)[DEGREE - 1] in recs
  {
    CutInner(Link(g, p, i, x, right), recs, p, y, DEGREE - 1)
  }

  lemma SplitInnerOk(g: Tree, recs: Records, left: int, right: int, p: int, i: nat, x: RID, y: int, top: nat)
    requires Core(g, recs, left, right, {x}) && Fill(g.nodes, g.root, -1, -1) && right != -1 && left != g.root
    requires p in g.nodes && p == g.nodes[left].parent && |g.nodes[p].keys| == 2 * DEGREE - 1
    requires x in recs && Rk(recs, x) == g.nodes[right].lo && recs[x].value.None?
    requires LowerBound(g.nodes[p].keys, recs, Rk(recs, x), i)
    requires y !in g.nodes && y >= 1
    requires forall c :: c in g.nodes ==> g.nodes[c].lvl <= top
    ensures i < |g.nodes[p].kids| == 2 * DEGREE && Inserted(g.nodes[p].keys, i, x)[DEGREE - 1] in recs
    ensures
      var g', up := SplitInner(g, recs, p, i, x, right, y), Inserted(g.nodes[p].keys, i, x)[DEGREE - 1];
      && Core(g', recs, p, y, {up}) && Fill(g'.nodes, g'.root, -1, -1)
      && g'.nodes[y].lo == Rk(recs, up) && recs[up].value.None?
      && (forall c :: c in g'.nodes ==> g'.nodes[c].lvl <= top)
      && g'.nodes[p].lvl == g.nodes[left].lvl + 1 && |g'.nodes[p].keys| >= DEGREE - 1
  {
    LinkedOk(g, recs, left, right, p, i, x, top);
    LinkedNode(g, p, i, x, right);
    hide Inserted, Core, CutInner, Link, Fill, LowerBound;
    OverfullCut(Link(g, p, i, x, right), recs, p, y);
    SplitInnerFill(g, recs, p, i, x, right, y, top);
  }

  lemma LinkedNode(g: Tree, p: int, i: nat, x: RID, right: int)
    requires p in g.nodes && i < |g.nodes[p].kids| == 2 * DEGREE && |g.nodes[p].keys| == 2 * DEGREE - 1
    ensures
      var g1 := Link(g, p, i, x, right);
      && g1.nodes.Keys == g.nodes.Keys
      && g1.nodes[p].keys == Inserted(g.nodes[p].keys, i, x) && |g1.nodes[p].keys| == 2 * DEGREE
      && g1.nodes[p].kids == Inserted(g.nodes[p].kids, i + 1, right) && |g1.nodes[p].kids| == 2 * DEGREE + 1
      && g1.nodes[p].lvl == g.nodes[p].lvl
  {
    InsertAt(g.nodes[p].keys, i, x);
    InsertAt(g.nodes[p].kids, i + 1, right);
    hide Inserted;
  }

  lemma OverfullCut(g: Tree, recs: Records, p: int, y: int)
    requires Core(g, recs, -1, -1, {}) && p in g.nodes && g.nodes[p].lvl > 0 && |g.nodes[p].keys| == 2 * DEGREE
    requires y !in g.nodes && y >= 1
    ensures
      var up := g.nodes[p].keys[DEGREE - 1];
      && up in recs && recs[up].value.None? && |g.nodes[p].kids| == |g.nodes[p].keys| + 1
      && Core(CutInner(g, recs, p, y, DEGREE - 1), recs, p, y, {up})
  {
    hide Core, CutInner;
    NodeFacts(g, recs, -1, -1, {}, p);
    UpKey(g.nodes[p], recs, DEGREE - 1);
    hide NodeOk;
    CutInnerOk(g, recs, {}, p, y, DEGREE - 1);
    assert {} + {g.nodes[p].keys[DEGREE - 1]} == {g.nodes[p].keys[DEGREE - 1]};
  }

  lemma UpKey(nd: Node, recs: Records, n: nat)
    requires NodeOk(nd, recs) && nd.lvl > 0 && n < |nd.keys|
    ensures nd.keys[n] in recs && recs[nd.keys[n]].value.None?
  {
    assert nd.keys[n] in nd.keys;
  }

  lemma SplitInnerFill(g: Tree, recs: Records, p: int, i: nat, x: RID, right: int, y: int, top: nat)
    requires Fill(g.nodes, g.root, -1, -1) && g.root in g.nodes && p in g.nodes && right in g.nodes
      && g.nodes[p].lvl > 0
    requires i < |g.nodes[p].kids| == 2 * DEGREE && |g.nodes[p].keys| == 2 * DEGREE - 1
    requires Inserted(g.nodes[p].keys, i, x)[DEGREE - 1] in recs && y !in g.nodes
    requires forall c :: c in g.nodes ==> g.nodes[c].lvl <= top
    ensures
      var g' := SplitInner(g, recs, p, i, x, right, y);
      && Fill(g'.nodes, g'.root, -1, -1) && y in g'.nodes
      && g'.nodes[y].lo == Rk(recs, Inserted(g.nodes[p].keys, i, x)[DEGREE - 1])
      && (forall c :: c in g'.nodes ==> g'.nodes[c].lvl <= top)
      && p in g'.nodes && g'.nodes[p].lvl == g.nodes[p].lvl && |g'.nodes[p].keys| >= DEGREE - 1
  {
    InsertAt(g.nodes[p].keys, i, x);
    InsertAt(g.nodes[p].kids, i + 1, right);
    hide Inserted;
  }

  /** The pages whose numbers are in `kids` got a new parent. */
  ghost function Adopted(view: seq<BPage>, kids: seq<int>, p: int): seq<BPage> {
    seq(|view|, a requires 0 <= a < |view| => if a in kids && view[a].BNode? then view[a].(parent := p) else view[a])
  }

  lemma SplitInnerPages(view: seq<BPage>, g: Tree, recs: Records, free: seq<int>, right: int, p: int, i: nat, x: RID,
      y: int,
                        page: BPage, q: BPage, view': seq<BPage>)
    requires PagesOk(view, g, free, {y}) && p in g.nodes && 0 < p < |view| && 0 < y < |view| && y !in g.nodes
    requires i < |g.nodes[p].kids| == 2 * DEGREE && |g.nodes[p].keys| == 2 * DEGREE - 1 && g.nodes[p].lvl > 0
    requires Inserted(g.nodes[p].keys, i, x)[DEGREE - 1] in recs
    requires view[p].BNode? && Proper(page)
      && page == view[p].(n := DEGREE - 1, row_ptr := page.row_ptr, child := page.child)
    requires Proper(q) && q.n == DEGREE && q.parent == page.parent && !q.leaf
    requires page.row_ptr[..DEGREE - 1] == Inserted(g.nodes[p].keys, i, x)[..DEGREE - 1]
    requires q.row_ptr[..DEGREE] == Inserted(g.nodes[p].keys, i, x)[DEGREE..]
    requires page.child[..DEGREE] == Inserted(g.nodes[p].kids, i + 1, right)[..DEGREE]
    requires q.child[..DEGREE + 1] == Inserted(g.nodes[p].kids, i + 1, right)[DEGREE..]
    requires forall c :: c in page.child[..DEGREE] + q.child[..DEGREE + 1] ==> c in g.nodes && c != p && c != y
    requires forall c :: c in page.child[..DEGREE] ==>
      c in g.nodes && g.nodes[c].parent == p && c !in q.child[..DEGREE + 1]
    requires view' == Adopted(Adopted(view, page.child[..DEGREE], p), q.child[..DEGREE + 1], y)[y := q][p := page]
    ensures PagesOk(view', SplitInner(g, recs, p, i, x, right, y), free, {})
    ensures Shows(page, SplitInner(g, recs, p, i, x, right, y).nodes[p])
      && Shows(q, SplitInner(g, recs, p, i, x, right, y).nodes[y])
  {
    InsertAt(g.nodes[p].keys, i, x);
    InsertAt(g.nodes[p].kids, i + 1, right);
    hide Inserted;
    NodePage(view, g, free, {y}, p);
    HeldPage(view, g, free, {y}, y);
    var g' := SplitInner(g, recs, p, i, x, right, y);
    assert Shows(page, g'.nodes[p]);
    assert Shows(q, g'.nodes[y]);
    forall a | a in g'.nodes ensures 0 < a < |view'| && Shows(view'[a], g'.nodes[a]) {
      if a != p && a != y {
        NodePage(view, g, free, {y}, a);
      }
    }
    hide Shows, Queue, Conserved;
    Rewrite(view, g, free, {y}, view', g', {});
  }

  // ---- the root was split

  lemma NewRootStep(g: Tree, recs: Records, right: int, x: RID, np: int)
    requires Core(g, recs, g.root, right, {x}) && Fill(g.nodes, g.root, -1, -1) && right != -1
      && |g.nodes[g.root].keys| >= DEGREE - 1
    requires x in recs && Rk(recs, x) == g.nodes[right].lo && recs[x].value.None?
    requires np !in g.nodes && np >= 1
    ensures right in g.nodes && right != g.root && WellFormed(NewRoot(g, np, x, right), recs, {})
  {
    CutRank(g, recs, right, {x}, x);
    NewRootOk(g, recs, right, {x}, np, x);
    assert {x} - {x} == {};
    NewRootFill(g, recs, right, x, np);
    hide Core, Fill, NewRoot;
  }

  lemma CutRank(g: Tree, recs: Records, right: int, extra: set<RID>, x: RID)
    requires Core(g, recs, g.root, right, extra) && right != -1 && |g.nodes[g.root].keys| > 0
      && Fill(g.nodes, g.root, -1, -1)
    requires x in recs && Rk(recs, x) == g.nodes[right].lo
    ensures right in g.nodes && right != g.root && 0.0 < Rk(recs, x) < 1.0 && |g.nodes[right].keys| >= DEGREE - 1
  {
    PendingIn(g.nodes, g.root, right);
    var l, r := g.nodes[g.root], g.nodes[right];
    assert NodeOk(l, recs) && NodeOk(r, recs);
    assert l.keys[0] in l.keys;
    assert r.keys[0] in r.keys;
    hide Down, Up, Owned, Nodes;
  }

  lemma NewRootFill(g: Tree, recs: Records, right: int, x: RID, np: int)
    requires Fill(g.nodes, g.root, -1, -1) && g.root in g.nodes && right in g.nodes
      && |g.nodes[g.root].keys| >= DEGREE - 1
    requires np !in g.nodes
    ensures Fill(NewRoot(g, np, x, right).nodes, np, -1, -1)
  {
  }

  lemma NewRootPages(view: seq<BPage>, g: Tree, free: seq<int>, right: int, x: RID, np: int, page: BPage)
    requires PagesOk(view, g, free, {np}) && right in g.nodes && g.root in g.nodes && right != g.root && np !in g.nodes
    requires 0 < np < |view| && 0 < right < |view| && 0 < g.root < |view| && view[right].BNode? && view[g.root].BNode?
    requires Proper(page) && page.n == 1 && page.parent == -1 && !page.leaf
    requires page.row_ptr[0] == x && page.child[0] == g.root && page.child[1] == right
    requires |view| > 0 && view[0].BCtrl?
    ensures
      var view' :=
        view[np := page][right := view[right].(parent := np)][g.root := view[g.root].(parent := np)]
          [0 := view[0].(root_node := np)];
      PagesOk(view', NewRoot(g, np, x, right), free, {})
  {
    NodePage(view, g, free, {np}, right);
    NodePage(view, g, free, {np}, g.root);
    HeldPage(view, g, free, {np}, np);
    CtrlOf(view, g, free, {np});
    var g' := NewRoot(g, np, x, right);
    assert page.row_ptr[..1] == [x] && page.child[..2] == [g.root, right];
    assert Shows(page, g'.nodes[np]);
    hide Shows, Queue, Conserved;
    Rewrite(
      view, g, free, {np},
      view[np := page][right := view[right].(parent := np)][g.root := view[g.root].(parent := np)]
        [0 := view[0].(root_node := np)],
      g', {});
  }

  lemma AdoptNone(view: seq<BPage>, kids: seq<int>, p: int)
    ensures Adopted(view, kids[..0], p) == view
  {
  }

  lemma AdoptOne(view: seq<BPage>, kids: seq<int>, j: nat, p: int)
    requires j < |kids| && 0 <= kids[j] < |view| && view[kids[j]].BNode?
    ensures
      var v := Adopted(view, kids[..j], p);
      && |v| == |view| && v[kids[j]].BNode?
      && v[kids[j] := v[kids[j]].(parent := p)] == Adopted(view, kids[..j + 1], p)
  {
    assert kids[..j + 1] == kids[..j] + [kids[j]];
  }

  lemma AdoptedFacts(view: seq<BPage>, kids: seq<int>, p: int)
    ensures |Adopted(view, kids, p)| == |view|
    ensures forall a :: 0 <= a < |view| ==> Adopted(view, kids, p)[a].BNode? == view[a].BNode?
    ensures forall a :: 0 <= a < |view| && a !in kids ==> Adopted(view, kids, p)[a] == view[a]
  {
  }

  /** `c` are children of page p, apart from `y`, which is about to become one. */
  ghost predicate Brood(g: Tree, p: int, y: int, kids: seq<int>) {
    && Distinct(kids) && y !in kids && y in g.nodes && g.nodes[y].parent == p && y != p
    && forall c :: c in kids ==> c in g.nodes && g.nodes[c].parent == p && c != p
  }

  lemma BroodFacts(g: Tree, p: int, y: int, kids: seq<int>)
    requires Brood(g, p, y, kids)
    ensures y in g.nodes && y != p && p !in kids
  {
  }

  lemma SplitBrood(g: Tree, p: int, y: int, kids: seq<int>, i: nat, ch: seq<int>, n: nat)
    requires Brood(g, p, y, kids) && i <= |kids| && ch == Inserted(kids, i, y) && n <= |ch|
    ensures forall c :: c in ch ==> c in g.nodes && g.nodes[c].parent == p && c != p
    ensures forall c :: c in ch[..n] ==> c in ch && c !in ch[n..]
    ensures forall c :: c in ch[n..] ==> c in ch
  {
    InsertAt(kids, i, y);
    hide Inserted;
    forall j | 0 <= j < |kids| ensures kids[j] in kids {
    }
    forall j, k | 0 <= j < k < |ch| ensures ch[j] != ch[k] {
    }
  }

  lemma KidPages(view: seq<BPage>, g: Tree, free: seq<int>, held: set<int>, kids: seq<int>)
    requires PagesOk(view, g, free, held) && forall c :: c in kids ==> c in g.nodes
    ensures forall j :: 0 <= j < |kids| ==>
      kids[j] in kids && 0 <= kids[j] < |view| && view[kids[j]].BNode? && kids[j] !in held
  {
    forall j | 0 <= j < |kids| ensures kids[j] in kids {
    }
  }

  /** Everything a full parent needs to split. */
  lemma FullParent(g: Tree, recs: Records, left: int, right: int, p: int, i: nat, x: RID, top: nat)
    requires Core(g, recs, left, right, {x}) && Fill(g.nodes, g.root, -1, -1) && right != -1 && left != g.root
    requires p in g.nodes && p == g.nodes[left].parent && |g.nodes[p].keys| == 2 * DEGREE - 1
    requires x in recs && Rk(recs, x) == g.nodes[right].lo && recs[x].value.None?
    requires LowerBound(g.nodes[p].keys, recs, Rk(recs, x), i)
    requires forall c :: c in g.nodes ==> g.nodes[c].lvl <= top
    ensures i < |g.nodes[p].kids| == 2 * DEGREE && g.nodes[p].lvl > 0 && left in g.nodes && left != p && right != p
    ensures Brood(g, p, right, g.nodes[p].kids)
    ensures Inserted(g.nodes[p].keys, i, x)[DEGREE - 1] in recs
  {
    hide Core, Fill, LowerBound, Inserted;
    PendingFacts(g, recs, left, right, {x});
    LinkedOk(g, recs, left, right, p, i, x, top);
    LinkedNode(g, p, i, x, right);
    NodeFacts(Link(g, p, i, x, right), recs, -1, -1, {}, p);
    UpKey(Link(g, p, i, x, right).nodes[p], recs, DEGREE - 1);
    FullBrood(g, recs, left, right, {x}, p);
  }

  lemma FullBrood(g: Tree, recs: Records, left: int, right: int, extra: set<RID>, p: int)
    requires Core(g, recs, left, right, extra) && p in g.nodes && right in g.nodes && g.nodes[right].parent == p
      && p != right
    ensures Brood(g, p, right, g.nodes[p].kids)
  {
    KidsOf(g.nodes, recs, left, right, p);
  }

  lemma LoneParent(g: Tree, recs: Records, left: int, right: int, extra: set<RID>)
    requires Core(g, recs, left, right, extra) && Fill(g.nodes, g.root, -1, -1) && right != -1
    ensures left in g.nodes && right in g.nodes && -1 !in g.nodes
    ensures
      if left == g.root then g.nodes[left].parent == -1
      else g.nodes[left].parent in g.nodes && g.nodes[left].parent >= 1
  {
  }

  /** The page above two halves is neither of them. */
  lemma ParentApart(g: Tree, recs: Records, left: int, right: int, extra: set<RID>)
    requires Core(g, recs, left, right, extra) && right != -1 && left != g.root
    ensures g.nodes[left].parent != left && g.nodes[left].parent != right
  {
    var p := g.nodes[left].parent;
    var i :| 0 <= i < |g.nodes[p].kids| && g.nodes[p].kids[i] == left;
    assert KidOk(g.nodes, recs, left, right, p, i);
  }

  lemma SameLowerBound(g: Tree, recs: Records, recs': Records, left: int, right: int, extra: set<RID>, p: int, q: real,
      i: nat)
    requires Core(g, recs, left, right, extra) && p in g.nodes && LowerBound(g.nodes[p].keys, recs, q, i)
    requires forall r :: r in recs ==> r in recs' && recs'[r] == recs[r]
    ensures LowerBound(g.nodes[p].keys, recs', q, i)
  {
    NodeFacts(g, recs, left, right, extra, p);
    var keys := g.nodes[p].keys;
    forall j | 0 <= j < |keys| ensures Rk(recs', keys[j]) == Rk(recs, keys[j]) {
      assert keys[j] in keys;
    }
  }

  lemma GapBound(keys: seq<RID>, recs: Records, q: real, i: nat)
    requires Gap(keys, recs, q, i)
    ensures i <= |keys|
  {
  }

  lemma SplitLeafKey(g: Tree, recs: Records, a: int, i: nat, r: RID)
    requires Core(g, recs, -1, -1, {r}) && a in g.nodes && i <= |g.nodes[a].keys| == 2 * DEGREE - 1 && r in recs
    ensures Inserted(g.nodes[a].keys, i, r)[DEGREE] in recs
  {
    NodeFacts(g, recs, -1, -1, {r}, a);
    InsertAt(g.nodes[a].keys, i, r);
    hide Inserted;
    assert Inserted(g.nodes[a].keys, i, r)[DEGREE] in Inserted(g.nodes[a].keys, i, r);
  }

  lemma SplitLeafFirst(g: Tree, recs: Records, a: int, y: int, i: nat, r: RID, page: BPage)
    requires a in g.nodes && i <= |g.nodes[a].keys| == 2 * DEGREE - 1 && Inserted(g.nodes[a].keys, i, r)[DEGREE] in recs
    requires y != a && Shows(page, SplitLeaf(g, recs, a, y, i, r).nodes[y])
    ensures page.row_ptr[0] == Inserted(g.nodes[a].keys, i, r)[DEGREE]
  {
    assert page.row_ptr[..page.n][0] == page.row_ptr[0];
  }

  lemma RootHalf(g: Tree, recs: Records, right: int, extra: set<RID>)
    requires Core(g, recs, g.root, right, extra) && Fill(g.nodes, g.root, -1, -1) && right != -1
    ensures right in g.nodes
  {
  }

  /** No entry has the key of the record that is to be inserted, so the search ends in a gap. */
  lemma EmptySlot(g: Tree, recs: Records, a: int, r: RID, i: nat)
    requires Core(g, recs, -1, -1, {r}) && a in g.nodes && g.nodes[a].lvl == 0 && r in recs
    requires forall s :: s in recs && recs[s].value.Some? && s != r ==> recs[s].rank != recs[r].rank
    requires LowerBound(g.nodes[a].keys, recs, Rk(recs, r), i)
    ensures Gap(g.nodes[a].keys, recs, Rk(recs, r), i)
  {
    NodeFacts(g, recs, -1, -1, {r}, a);
    CoreKeys(g, recs, -1, -1, {r});
    var keys := g.nodes[a].keys;
    if i < |keys| {
      assert keys[i] in keys;
    }
  }

  lemma SameEntries(recs: Records, r: RID)
    requires r in recs && recs[r].value.None?
    ensures Entries(recs - {r}) == Entries(recs)
  {
  }
}
