/** How a B+ tree lies in the pages of its file. */
module BTreePages {
  import opened Common
  import opened BTreeModel

  /** A page of the index file: BCtrlBlock on page 0, BNode elsewhere.  Only the first n entries
      of `row_ptr`, and the first n+1 of `child` in an inner node, mean anything; `next` links
      free nodes only. */
  datatype BPage =
    | BCtrl(root_node: int, free_node_head: int, free_node_tail: int, free_node_num: nat)
    | BNode(n: nat, next: int, parent: int, child: seq<int>, row_ptr: seq<RID>, leaf: bool)

  ghost predicate Proper(p: BPage) {
    p.BNode? && |p.child| == 2 * DEGREE && |p.row_ptr| == 2 * DEGREE - 1
  }

  /** The page shows the node. */
  ghost predicate Shows(p: BPage, nd: Node) {
    && Proper(p)
    && p.n == |nd.keys| <= 2 * DEGREE - 1
    && p.row_ptr[..p.n] == nd.keys
    && (nd.lvl > 0 ==> p.child[..p.n + 1] == nd.kids)
    && p.parent == nd.parent
    && (p.leaf <==> nd.lvl == 0)
  }

  ghost function Head(free: seq<int>): int { if free == [] then -1 else free[0] }

  ghost function Tail(free: seq<int>): int { if free == [] then -1 else free[|free| - 1] }

  ghost predicate Linked(view: seq<BPage>, free: seq<int>, i: nat)
    requires i < |free|
  {
    && 0 < free[i] < |view| && Proper(view[free[i]])
    && view[free[i]].next == if i + 1 < |free| then free[i + 1] else -1
  }

  /** The queue of free pages is linked through `next`. */
  ghost predicate Queue(view: seq<BPage>, free: seq<int>) {
    && (forall i :: 0 <= i < |free| ==> Linked(view, free, i))
    && (forall i, j :: 0 <= i < j < |free| ==> free[i] != free[j])
  }

  /** The pages of the tree, and those lost to it. */
  ghost function Used(g: Tree): set<int> { g.nodes.Keys + g.lost }

  /** Page conservation: apart from the control page every page of the file is used, in the
      queue, or held by the running operation, and in one of them only. */
  ghost predicate Conserved(len: nat, used: set<int>, free: seq<int>, held: set<int>) {
    && (forall a :: 0 < a < len <==> a in used || a in free || a in held)
    && used !! held
    && (forall i :: 0 <= i < |free| ==> free[i] !in used && free[i] !in held)
  }

  ghost predicate Shown(view: seq<BPage>, t: map<int, Node>) {
    forall a :: a in t ==> 0 < a < |view| && Shows(view[a], t[a])
  }

  ghost predicate PagesOk(view: seq<BPage>, g: Tree, free: seq<int>, held: set<int>) {
    && |view| > 0 && view[0] == BCtrl(g.root, Head(free), Tail(free), |free|)
    && Shown(view, g.nodes)
    && Queue(view, free)
    && Conserved(|view|, Used(g), free, held) && g.nodes.Keys !! g.lost
  }

  // ---- the file outside a session

  /** The first n pages of a closed file hold the tree; `lost` is what it will have lost when
      the file is opened again. */
  ghost predicate TreeFileUpTo(file: seq<BPage>, n: nat, g: Tree, free: seq<int>, recs: Records, lost: set<int>) {
    && n <= |file| && PagesOk(file[..n], g, free, {}) && WellFormed(g, recs, {})
    && lost == g.lost + PagesFrom(n, |file|)
  }

  ghost predicate TreeFile(file: seq<BPage>, recs: Records, lost: set<int>) {
    exists n, g, free :: TreeFileUpTo(file, n, g, free, recs, lost)
  }

  ghost function WithLost(g: Tree, n: nat, length: nat): Tree {
    g.(lost := g.lost + PagesFrom(n, length))
  }

  /** Pages that reappear at the end of the file are lost to the tree. */
  lemma TreeFileExtended(file: seq<BPage>, n: nat, g: Tree, free: seq<int>, recs: Records, lost: set<int>)
    requires TreeFileUpTo(file, n, g, free, recs, lost)
    ensures PagesOk(file, WithLost(g, n, |file|), free, {}) && WellFormed(WithLost(g, n, |file|), recs, {})
    ensures WithLost(g, n, |file|).lost == lost
  {
    hide Core, Fill;
    SameTree(g, WithLost(g, n, |file|), recs);
    PagesExtended(file, n, g, free);
  }

  lemma PagesExtended(file: seq<BPage>, n: nat, g: Tree, free: seq<int>)
    requires n <= |file| && PagesOk(file[..n], g, free, {})
    ensures PagesOk(file, WithLost(g, n, |file|), free, {})
  {
    var view, g' := file[..n], WithLost(g, n, |file|);
    QueueKeep(view, free, file);
    hide Queue, Shows;
    ConservedExtended(n, Used(g), free, |file|);
    assert Used(g') == Used(g) + PagesFrom(n, |file|);
    hide Conserved;
    assert forall a :: a in g.nodes ==> a in Used(g);
  }

  lemma ConservedExtended(n: nat, used: set<int>, free: seq<int>, length: nat)
    requires Conserved(n, used, free, {}) && 0 < n <= length
    ensures Conserved(length, used + PagesFrom(n, length), free, {})
    ensures used !! PagesFrom(n, length)
  {
    assert forall i :: 0 <= i < |free| ==> free[i] in free;
  }

  lemma SameTree(g: Tree, g': Tree, recs: Records)
    requires WellFormed(g, recs, {}) && g' == g.(lost := g'.lost)
    ensures WellFormed(g', recs, {})
  {
  }

  lemma EmptyPages(view: seq<BPage>)
    requires |view| == 2 && view[0] == BCtrl(1, -1, -1, 0)
    requires Proper(view[1]) && view[1].n == 0 && view[1].parent == -1 && view[1].leaf
    ensures PagesOk(view, EmptyTree(), [], {})
  {
  }

  // ---- taking a page from the queue and appending one

  /** How queue and length of the file change when an operation takes pages: they come from the
      head of the queue, and from past the end of the file only once the queue is empty. */
  ghost predicate Drawn(free: seq<int>, len: nat, free': seq<int>, len': nat) {
    && |free'| <= |free| && free' == free[|free| - |free'|..]
    && len' >= len && (len' > len ==> free' == [])
  }

  lemma DrawnOn(free: seq<int>, len: nat, free1: seq<int>, len1: nat, free2: seq<int>, len2: nat)
    requires Drawn(free, len, free1, len1) && Drawn(free1, len1, free2, len2)
    ensures Drawn(free, len, free2, len2)
  {
  }

  /** How queue and length of the file change when an operation gives pages of the tree back:
      they go to the tail of the queue, but the last page of the file is cut off. */
  ghost predicate Shed(g: Tree, free: seq<int>, len: nat, g': Tree, free': seq<int>, len': nat) {
    && |free| <= |free'| && free'[..|free|] == free
    && len' <= len && (len' < len <==> len - 1 in g.nodes && len - 1 !in g'.nodes)
  }

  lemma ShedOn(g: Tree, free: seq<int>, len: nat, g1: Tree, free1: seq<int>, len1: nat, g2: Tree, free2: seq<int>,
      len2: nat)
    requires Shed(g, free, len, g1, free1, len1) && Shed(g1, free1, len1, g2, free2, len2)
    requires g2.nodes.Keys <= g1.nodes.Keys <= g.nodes.Keys
    ensures Shed(g, free, len, g2, free2, len2)
  {
    assert free == free1[..|free|] == free2[..|free1|][..|free|];
  }

  lemma ShedOne(g: Tree, free: seq<int>, len: nat, a: int, g': Tree, free': seq<int>, len': nat)
    requires a in g.nodes && 0 <= a < len && g'.nodes.Keys == g.nodes.Keys - {a}
    requires if a == len - 1 then len' == a && free' == free else len' == len && free' == free + [a]
    ensures Shed(g, free, len, g', free', len')
  {
  }

  /** No page is given back. */
  lemma ShedNone(g: Tree, free: seq<int>, len: nat, g': Tree)
    requires g'.nodes.Keys == g.nodes.Keys
    ensures Shed(g, free, len, g', free, len)
  {
  }

  lemma QueueKeep(view: seq<BPage>, free: seq<int>, view': seq<BPage>)
    requires Queue(view, free)
    requires forall a :: a in free && 0 <= a < |view| ==> a < |view'| && view'[a] == view[a]
    ensures Queue(view', free)
  {
    forall i | 0 <= i < |free| ensures Linked(view', free, i) {
      assert Linked(view, free, i) && free[i] in free;
    }
  }

  lemma QueuePop(view: seq<BPage>, free: seq<int>, view': seq<BPage>)
    requires Queue(view, free) && free != [] && |view'| == |view|
    requires forall i :: 1 <= i < |free| && 0 <= free[i] < |view| ==> view'[free[i]] == view[free[i]]
    ensures Queue(view', free[1..])
  {
    var rest := free[1..];
    forall i | 0 <= i < |rest| ensures Linked(view', rest, i) {
      assert Linked(view, free, i + 1);
    }
  }

  lemma QueuePush(view: seq<BPage>, free: seq<int>, a: int, view': seq<BPage>)
    requires Queue(view, free) && |view'| == |view| && a !in free
    requires 0 < a < |view| && Proper(view'[a]) && view'[a].next == -1
    requires forall i :: 0 <= i < |free| - 1 && 0 <= free[i] < |view| ==> view'[free[i]] == view[free[i]]
    requires free != [] ==>
      0 <= Tail(free) < |view| && view[Tail(free)].BNode? && view'[Tail(free)] == view[Tail(free)].(next := a)
    ensures Queue(view', free + [a])
  {
    var all := free + [a];
    forall i | 0 <= i < |all| ensures Linked(view', all, i) {
      assert i < |free| ==> Linked(view, free, i) && free[i] in free;
    }
  }

  lemma ConservedPop(len: nat, used: set<int>, free: seq<int>, held: set<int>)
    requires Conserved(len, used, free, held) && free != [] && forall i :: 0 < i < |free| ==> free[i] != free[0]
    ensures Conserved(len, used, free[1..], held + {free[0]}) && free[0] !in held && free[0] !in used
  {
    assert forall a :: a in free <==> a == free[0] || a in free[1..];
  }

  lemma ConservedPush(len: nat, used: set<int>, free: seq<int>, held: set<int>, a: int)
    requires Conserved(len, used, free, held) && a in held
    ensures Conserved(len, used, free + [a], held - {a}) && a !in free && a !in used
  {
    assert forall b :: b in free + [a] <==> b in free || b == a;
  }

  lemma TakeFree(view: seq<BPage>, g: Tree, free: seq<int>, held: set<int>, view': seq<BPage>)
    requires PagesOk(view, g, free, held) && free != []
    requires
      var a := free[0];
      0 < a < |view| && view[a].BNode?
        && view' == view[a := view[a].(next := -1)][0 := BCtrl(g.root, view[a].next, Tail(free[1..]), |free| - 1)]
    ensures PagesOk(view', g, free[1..], held + {free[0]})
    ensures free[0] !in held && free[0] !in g.nodes && Proper(view'[free[0]])
  {
    ConservedPop(|view|, Used(g), free, held);
    assert Linked(view, free, 0);
    assert free[1..] != [] ==> free[1..][0] == free[1];
    QueuePop(view, free, view');
    hide Conserved, Shows, Queue;
  }

  lemma Append(view: seq<BPage>, g: Tree, free: seq<int>, held: set<int>, p: BPage)
    requires PagesOk(view, g, free, held)
    ensures PagesOk(view + [p], g, free, held + {|view|})
    ensures |view| !in held && |view| !in g.nodes && |view| !in free
  {
    QueueKeep(view, free, view + [p]);
    hide Queue;
  }

  // ---- giving a page back

  lemma Truncate(view: seq<BPage>, g: Tree, free: seq<int>, held: set<int>, a: int)
    requires PagesOk(view, g, free, held) && a in held && a + 1 == |view|
    ensures 0 < a && PagesOk(view[..a], g, free, held - {a})
  {
    assert a !in free;
    QueueKeep(view, free, view[..a]);
    hide Queue;
  }

  lemma GiveBack(view: seq<BPage>, g: Tree, free: seq<int>, held: set<int>, a: int, view': seq<BPage>)
    requires PagesOk(view, g, free, held) && a in held && 0 < a < |view| && Proper(view[a])
    requires free != [] ==> 0 < Tail(free) < |view| && view[Tail(free)].BNode?
    requires
      var linked := if free == [] then view else view[Tail(free) := view[Tail(free)].(next := a)];
      view' == linked[0 := BCtrl(g.root, if free == [] then a else Head(free), a,
        |free| + 1)][a := view[a].(next := -1)]
    ensures PagesOk(view', g, free + [a], held - {a})
  {
    ConservedPush(|view|, Used(g), free, held, a);
    TailNotUsed(|view|, Used(g), free, held, a);
    hide Conserved;
    QueuePush(view, free, a, view');
    hide Queue, Shows;
  }

  lemma TailNotUsed(len: nat, used: set<int>, free: seq<int>, held: set<int>, a: int)
    requires Conserved(len, used, free, held) && a in held
    ensures free != [] ==> Tail(free) !in used && Tail(free) != a
    ensures a !in used
  {
  }

  lemma CtrlOf(view: seq<BPage>, g: Tree, free: seq<int>, held: set<int>)
    requires PagesOk(view, g, free, held)
    ensures |view| > 0 && view[0] == BCtrl(g.root, Head(free), Tail(free), |free|)
    ensures 0 !in g.nodes && 0 !in held
  {
  }

  lemma NodePage(view: seq<BPage>, g: Tree, free: seq<int>, held: set<int>, a: int)
    requires PagesOk(view, g, free, held) && a in g.nodes
    ensures 0 < a < |view| && Shows(view[a], g.nodes[a]) && a !in free && a !in held
  {
  }

  lemma HeldPage(view: seq<BPage>, g: Tree, free: seq<int>, held: set<int>, a: int)
    requires PagesOk(view, g, free, held) && a in held
    ensures 0 < a < |view| && a !in g.nodes && a !in free
  {
  }

  lemma Appended(view: seq<BPage>, g: Tree, free: seq<int>, held: set<int>)
    requires PagesOk(view, g, free, held)
    ensures |view| !in held && |view| !in g.nodes
  {
  }

  lemma TailOf(view: seq<BPage>, g: Tree, free: seq<int>, held: set<int>)
    requires PagesOk(view, g, free, held) && free != []
    ensures 0 < Tail(free) < |view| && Proper(view[Tail(free)]) && Tail(free) in free && Tail(free) !in held
      && Tail(free) !in g.nodes
    ensures Head(free) == free[0] && 0 < Head(free) < |view| && Proper(view[Head(free)]) && Head(free) !in held
      && Head(free) !in g.nodes
    ensures view[Head(free)].next == Head(free[1..])
    ensures |free| > 1 ==> Tail(free[1..]) == Tail(free)
  {
    assert |free| > 1 ==> free[1..][0] == free[1];
    assert Linked(view, free, 0) && Linked(view, free, |free| - 1);
  }

  // ---- writing nodes

  /** The tree pages were rewritten; queue, control page and the other pages were not. */
  lemma Rewrite(view: seq<BPage>, g: Tree, free: seq<int>, held: set<int>, view': seq<BPage>, g': Tree, held': set<int>)
    requires PagesOk(view, g, free, held)
    requires |view'| == |view| && view[0].BCtrl? && view'[0] == view[0].(root_node := g'.root)
    requires Shown(view', g'.nodes)
    requires g.nodes.Keys + held == g'.nodes.Keys + held' && g'.nodes.Keys !! held' && g'.lost == g.lost
    requires forall a :: a in free && 0 <= a < |view| ==> view'[a] == view[a]
    ensures PagesOk(view', g', free, held')
  {
    QueueKeep(view, free, view');
  }
}
