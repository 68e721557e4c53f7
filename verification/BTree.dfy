/** The disk-based B+ tree (src/b_tree.c) over a buffer pool; its comparators and handlers work
    on the record store. */
module BTrees {
  import opened Common
  import opened BufferPools
  import opened BTreeModel
  import opened BTreePages
  import opened NodeOps
  import opened BTreeSearch
  import opened BTreeDeletion
  import opened BTreeBorrow
  import opened BTreeSteps
  import opened BTreeShrink
  import opened BTreeHeight
  import opened BTreeLeaves
  import opened KeyOrder
  import opened RecordStores

  /** No operation of the tree pins more pages than these at a time. */
  const MAX_PINNED := 5

  class BTree {
    const pool: BufferPool<BPage>
    const store: RecordStore

    // the tree in the pages and the queue of free pages, from head to tail
    ghost var g: Tree
    ghost var free: seq<int>

    /** The pages `pins` are pinned, and the running operation holds the pages `held` outside
        tree and queue. */
    ghost predicate Pages(pins: set<int>, held: set<int>)
      reads this, pool, pool.Repr
    {
      this !in pool.Repr && pool.Valid() && pool.pinned == pins && PagesOk(pool.view, g, free, held)
    }

    /** b_tree_init on an empty file. */
    constructor Init(store: RecordStore)
      ensures this.store == store && fresh(pool) && fresh(pool.Repr) && Pages({}, {}) && WellFormed(g, map[], {})
      ensures g == EmptyTree() && free == [] && |pool.view| == 2
    {
      this.store := store;
      pool := new BufferPool.Open([]);
      g, free := EmptyTree(), [];
      new;
      EmptyWellFormed();
      hide BufferPool.Valid, WellFormed, EmptyTree;
      FirstPages();
      EmptyPages(pool.view);
    }

    /** b_tree_close. */
    method Close() returns (file: seq<BPage>)
      requires Ready({}, {}) && WellFormed(g, store.recs, {})
      modifies pool.Repr
      ensures |file| >= |old(pool.view)|
      ensures TreeFile(file, store.recs, g.lost + PagesFrom(|old(pool.view)|, |file|))
    {
      hide BufferPool.Valid, RecordStore.Valid, WellFormed, PagesOk, PagesFrom;
      pool.Close();
      file := pool.disk;
      assert TreeFileUpTo(file, |pool.view|, g, free, store.recs, g.lost + PagesFrom(|pool.view|, |file|));
    }

    /** b_tree_init on a file that exists. */
    constructor Reopen(file: seq<BPage>, store: RecordStore, ghost lost: set<int>)
      requires TreeFile(file, store.recs, lost)
      ensures this.store == store && fresh(pool) && fresh(pool.Repr) && Pages({}, {}) && WellFormed(g, store.recs, {})
      ensures g.lost == lost && pool.view == file
    {
      hide BufferPool.Valid, WellFormed, PagesOk;
      ghost var n, g, free :| TreeFileUpTo(file, n, g, free, store.recs, lost);
      TreeFileExtended(file, n, g, free, store.recs, lost);
      this.store := store;
      pool := new BufferPool.Open(file);
      this.g, this.free := WithLost(g, n, |file|), free;
    }

    /** get_page as the tree uses it: never a page that it already holds, because the pin is one
        bit and the first release would clear it, and never a sixth. */
    method Pin(addr: nat) returns (p: BPage)
      requires pool.Valid() && addr <= |pool.view|
      requires |pool.pinned| < MAX_PINNED && addr !in pool.pinned
      modifies pool.Repr
      ensures pool.Valid() && pool.pinned == old(pool.pinned) + {addr}
      ensures addr < |pool.view| && p == pool.view[addr]
      ensures pool.view == if addr < |old(pool.view)| then old(pool.view) else old(pool.view) + [p]
    {
      hide BufferPool.Valid;
      p := pool.Fetch(addr);
    }

    method FirstPages()
      requires pool.Valid() && pool.view == [] && pool.pinned == {}
      modifies pool.Repr
      ensures pool.Valid() && pool.pinned == {}
      ensures |pool.view| == 2 && pool.view[0] == BCtrl(1, -1, -1, 0)
      ensures Proper(pool.view[1]) && pool.view[1].n == 0 && pool.view[1].parent == -1 && pool.view[1].leaf
    {
      hide BufferPool.Valid;
      var ctr := Pin(0);
      var node := Pin(1);
      pool.Put(0, BCtrl(1, -1, -1, 0));
      node := AsNode(node);
      pool.Put(1, node.(n := 0, next := -1, parent := -1, leaf := true));
      pool.Release(0);
      pool.Release(1);
    }

    // ---- the queue of free pages

    /** get_new_BNode */
    method GetNewNode(ghost pins: set<int>, ghost held: set<int>) returns (ans: int)
      requires Pages(pins, held) && |pins| <= MAX_PINNED - 2 && 0 !in pins && pins <= g.nodes.Keys + held
      modifies this`free, pool.Repr
      ensures if old(free) == [] then ans == -1 && Pages(pins, held) else ans >= 0 && Pages(pins, held + {ans})
      ensures ans != -1 ==> ans !in held && ans !in g.nodes && Proper(pool.view[ans])
      ensures forall a :: a in pins && 0 <= a < |old(pool.view)| ==>
        a < |pool.view| && pool.view[a] == old(pool.view)[a]
      ensures |pool.view| == |old(pool.view)|
      ensures if old(free) == [] then free == [] else ans == old(free)[0] && free == old(free)[1..]
    {
      hide PagesOk, BufferPool.Valid;
      CtrlOf(pool.view, g, free, held);
      ghost var before := pool.view;
      var ctr := Pin(0);
      if ctr.free_node_num != 0 {
        ans := ctr.free_node_head;
        TailOf(before, g, free, held);
        TakeHead(ctr, pins);
        TakeFree(before, g, free, held, pool.view);
        free := free[1..];
      } else {
        ans := -1;
      }
      pool.Release(0);
    }

    /** The steps of get_new_BNode when there is a free page. */
    method TakeHead(ctr: BPage, ghost pins: set<int>)
      requires pool.Valid() && pool.pinned == pins + {0} && |pins| <= MAX_PINNED - 2
      requires ctr.BCtrl? && ctr.free_node_num > 0 && 0 < ctr.free_node_head < |pool.view|
        && pool.view[ctr.free_node_head].BNode?
      requires ctr.free_node_head !in pins
      modifies pool.Repr
      ensures pool.Valid() && pool.pinned == pins + {0}
      ensures
        var a, view := ctr.free_node_head, old(pool.view);
        pool.view == view[a := view[a].(next := -1)]
          [0 := BCtrl(ctr.root_node, view[a].next, if ctr.free_node_num == 1 then -1 else ctr.free_node_tail,
            ctr.free_node_num - 1)]
    {
      hide BufferPool.Valid;
      var ans := ctr.free_node_head;
      var node := Pin(ans);
      var ctr := ctr.(free_node_head := node.next);
      node := node.(next := -1);
      pool.Put(ans, node);
      pool.Release(ans);
      ctr := ctr.(free_node_num := ctr.free_node_num - 1);
      if ctr.free_node_num == 0 {
        ctr := ctr.(free_node_tail := -1);
      }
      pool.Put(0, ctr);
    }

    /** A page cast to a node: whatever bytes a fresh page holds, it has the fields of one. */
    method AsNode(p: BPage) returns (node: BPage)
      ensures Proper(node) && (Proper(p) ==> node == p)
    {
      if p.BNode? && |p.child| == 2 * DEGREE && |p.row_ptr| == 2 * DEGREE - 1 {
        node := p;
      } else {
        node := BNode(0, -1, -1, seq(2 * DEGREE, _ => -1), seq(2 * DEGREE - 1, _ => NO_RID), false);
      }
    }

    /** The idiom around get_new_BNode: a free page, or else one appended to the file. */
    method NewNode(ghost pins: set<int>, ghost held: set<int>) returns (addr: nat, node: BPage)
      requires Pages(pins, held) && |pins| <= MAX_PINNED - 2 && 0 !in pins && pins <= g.nodes.Keys + held
      modifies this`free, pool.Repr
      ensures addr !in held && addr !in g.nodes && addr !in pins && addr >= 1
      ensures Pages(pins + {addr}, held + {addr}) && Proper(node)
      ensures forall a :: a in pins && 0 <= a < |old(pool.view)| ==>
        a < |pool.view| && pool.view[a] == old(pool.view)[a]
      ensures if old(free) == [] then addr == |old(pool.view)| && free == [] && |pool.view| == addr + 1
        else addr == old(free)[0] && free == old(free)[1..] && |pool.view| == |old(pool.view)|
    {
      var a := GetNewNode(pins, held);
      hide PagesOk, BufferPool.Valid;
      if a == -1 {
        a := pool.length;
        CtrlOf(pool.view, g, free, held);
        Appended(pool.view, g, free, held);
      } else {
        HeldPage(pool.view, g, free, held + {a}, a);
      }
      ghost var before := pool.view;
      var page := Pin(a);
      node := AsNode(page);
      if a == |before| {
        Append(before, g, free, held, page);
      }
      addr := a;
    }

    /** release_new_BNode: unpin the page and truncate the file or queue the page at the tail. */
    method ReleaseNode(addr: nat, ghost pins: set<int>, ghost held: set<int>)
      requires Pages(pins, held) && |pins| <= MAX_PINNED - 2 && addr in pins && addr in held
      requires 0 !in pins && pins <= g.nodes.Keys + held && Proper(pool.view[addr])
      modifies this`free, pool.Repr
      ensures Pages(pins - {addr}, held - {addr})
      ensures forall a :: a in pins && a != addr && 0 <= a < |old(pool.view)| ==>
        a < |pool.view| && pool.view[a] == old(pool.view)[a]
      ensures if addr == |old(pool.view)| - 1 then |pool.view| == addr && free == old(free)
        else |pool.view| == |old(pool.view)| && free == old(free) + [addr]
    {
      hide PagesOk, BufferPool.Valid;
      CtrlOf(pool.view, g, free, held);
      HeldPage(pool.view, g, free, held, addr);
      pool.Release(addr);
      if addr == pool.length - 1 {
        Truncate(pool.view, g, free, held, addr);
        ghost var before := pool.view;
        pool.DropLast(addr);
        forall a | a in pins && a != addr && 0 <= a < |before| ensures a < |pool.view| && pool.view[a] == before[a] {
          assert a < addr;
        }
        return;
      }
      Enqueue(addr, pins - {addr}, held);
      assert forall a :: a in pins && a != addr ==> a in pins - {addr};
    }

    method Enqueue(addr: nat, ghost pins: set<int>, ghost held: set<int>)
      requires Pages(pins, held) && |pins| <= MAX_PINNED - 3 && addr in held && addr !in pins
      requires 0 !in pins && pins <= g.nodes.Keys + held && addr < |pool.view| && Proper(pool.view[addr])
      modifies this`free, pool.Repr
      ensures Pages(pins, held - {addr})
      ensures forall a :: a in pins && 0 <= a < |old(pool.view)| ==>
        a < |pool.view| && pool.view[a] == old(pool.view)[a]
      ensures |pool.view| == |old(pool.view)| && free == old(free) + [addr]
    {
      hide PagesOk, BufferPool.Valid;
      ghost var before := pool.view;
      CtrlOf(before, g, free, held);
      HeldPage(before, g, free, held, addr);
      QueueAtTail(addr, pins, held);
      var node := Pin(addr);
      pool.Put(addr, node.(next := -1));
      pool.Release(addr);
      GiveBack(before, g, free, held, addr, pool.view);
      free := free + [addr];
    }

    /** The links of release_new_BNode on the control page and in the old tail. */
    method QueueAtTail(addr: nat, ghost pins: set<int>, ghost held: set<int>)
      requires Pages(pins, held) && |pins| <= MAX_PINNED - 3 && addr in held
      requires 0 !in pins && pins <= g.nodes.Keys + held
      modifies pool.Repr
      ensures pool.Valid() && pool.pinned == pins
      ensures free != [] ==>
        0 < Tail(free) < |old(pool.view)| && old(pool.view)[Tail(free)].BNode? && Tail(free) != addr
      ensures free != [] ==> Tail(free) !in pins
      ensures |old(pool.view)| > 0
      ensures
        var linked := if free == [] then old(pool.view)
          else old(pool.view)[Tail(free) := old(pool.view)[Tail(free)].(next := addr)];
        pool.view == linked[0 := BCtrl(g.root, if free == [] then addr else Head(free), addr, |free| + 1)]
    {
      hide PagesOk, BufferPool.Valid;
      CtrlOf(pool.view, g, free, held);
      if free != [] {
        TailOf(pool.view, g, free, held);
      }
      var ctr := Pin(0);
      if ctr.free_node_num != 0 {
        ctr := ctr.(free_node_num := ctr.free_node_num + 1);
        LinkTail(ctr.free_node_tail, addr, pins + {0});
        ctr := ctr.(free_node_tail := addr);
      } else {
        ctr := ctr.(free_node_head := addr, free_node_tail := addr, free_node_num := 1);
      }
      pool.Put(0, ctr);
      pool.Release(0);
    }

    method LinkTail(tail: int, addr: nat, ghost pins: set<int>)
      requires pool.Valid() && pool.pinned == pins && |pins| <= MAX_PINNED - 2 && 0 < tail < |pool.view|
        && tail !in pins && pool.view[tail].BNode?
      modifies pool.Repr
      ensures pool.Valid() && pool.pinned == pins
        && pool.view == old(pool.view)[tail := old(pool.view)[tail].(next := addr)]
    {
      hide BufferPool.Valid;
      var node := Pin(tail);
      pool.Put(tail, node.(next := addr));
      pool.Release(tail);
      assert pins + {tail} - {tail} == pins;
    }

    // ---- descending

    /** Pages, records and the well-formed tree outside the operation's own business. */
    ghost predicate Ready(pins: set<int>, held: set<int>)
      reads this, pool, pool.Repr, store, store.Repr
    {
      && pool.Repr !! store.Repr && this !in store.Repr
      && store.Valid()
      && Pages(pins, held)
    }

    ghost predicate Rows(keys: seq<RID>)
      reads store
    {
      Sorted(keys, store.recs) && forall r :: r in keys ==> r in store.recs
    }

    /** lower_bound_rr */
    method LowerBoundRecord(row: seq<RID>, n: nat, rid: RID) returns (ans: nat)
      requires store.Valid() && n <= |row| && rid in store.recs && Rows(row[..n])
      modifies store.Repr
      ensures store.Valid() && store.recs == old(store.recs)
      ensures LowerBound(row[..n], store.recs, Rk(store.recs, rid), ans)
    {
      hide RecordStore.Valid, Rank;
      var l, r := 0, n - 1;
      ans := n;
      while l <= r
        invariant store.Valid() && store.recs == old(store.recs)
        invariant 0 <= l <= r + 1 == ans <= n
        invariant forall j :: 0 <= j < l ==> Rk(store.recs, row[j]) < Rk(store.recs, rid)
        invariant forall j :: ans <= j < n ==> Rk(store.recs, rid) <= Rk(store.recs, row[j])
      {
        var mid := (l + r) / 2;
        assert row[..n][mid] == row[mid] && row[mid] in row[..n];
        var c := store.CompareRecords(rid, row[mid]);
        RowOrder(row[..n], store.recs, mid);
        if c > 0 {
          l := mid + 1;
        } else {
          ans := mid;
          r := mid - 1;
        }
      }
    }

    static lemma RowOrder(keys: seq<RID>, recs: Records, mid: nat)
      requires Sorted(keys, recs) && mid < |keys|
      ensures forall j :: 0 <= j <= mid ==> Rk(recs, keys[j]) <= Rk(recs, keys[mid])
      ensures forall j :: mid <= j < |keys| ==> Rk(recs, keys[mid]) <= Rk(recs, keys[j])
    {
    }

    /** lower_bound_pr */
    method LowerBoundKey(row: seq<RID>, n: nat, key: String) returns (ans: nat)
      requires store.Valid() && n <= |row| && Rows(row[..n])
      modifies store.Repr
      ensures store.Valid() && store.recs == old(store.recs)
      ensures LowerBound(row[..n], store.recs, Rank(key), ans)
    {
      hide RecordStore.Valid, Rank;
      var l, r := 0, n - 1;
      ans := n;
      while l <= r
        invariant store.Valid() && store.recs == old(store.recs)
        invariant 0 <= l <= r + 1 == ans <= n
        invariant forall j :: 0 <= j < l ==> Rk(store.recs, row[j]) < Rank(key)
        invariant forall j :: ans <= j < n ==> Rank(key) <= Rk(store.recs, row[j])
      {
        var mid := (l + r) / 2;
        assert row[..n][mid] == row[mid] && row[mid] in row[..n];
        var c := store.CompareKey(key, row[mid]);
        RowOrder(row[..n], store.recs, mid);
        if c > 0 {
          l := mid + 1;
        } else {
          ans := mid;
          r := mid - 1;
        }
      }
    }

    /** `node` is the pinned page `now` of the tree. */
    ghost predicate On(now: int, node: BPage)
      reads this, pool
    {
      now in g.nodes && 0 < now < |pool.view| && node == pool.view[now] && Shows(node, g.nodes[now])
    }

    method EnterRoot() returns (now: nat, node: BPage)
      requires Pages({}, {}) && g.root in g.nodes
      modifies pool.Repr
      ensures Pages({now}, {}) && now == g.root && On(now, node)
      ensures pool.view == old(pool.view)
    {
      hide PagesOk, BufferPool.Valid, Shows;
      CtrlOf(pool.view, g, free, {});
      NodePage(pool.view, g, free, {}, g.root);
      var ctr := Pin(0);
      now := ctr.root_node;
      pool.Release(0);
      node := Pin(now);
    }

    method Descend(pre: nat, next: nat) returns (node: BPage)
      requires Pages({pre}, {}) && next in g.nodes
      modifies pool.Repr
      ensures Pages({next}, {}) && On(next, node)
      ensures pool.view == old(pool.view)
    {
      hide PagesOk, BufferPool.Valid, Shows;
      NodePage(pool.view, g, free, {}, next);
      pool.Release(pre);
      node := Pin(next);
    }

    /** b_tree_search: the entry whose key is `key`, or NOT_FOUND if there is none. */
    method Search(key: String) returns (ans: RID)
      requires Ready({}, {}) && WellFormed(g, store.recs, {})
      modifies pool.Repr, store.Repr
      ensures Ready({}, {}) && store.recs == old(store.recs)
      ensures ans == NOT_FOUND <==>
        forall r :: r in store.recs && store.recs[r].value.Some? ==> store.recs[r].rank != Rank(key)
      ensures ans != NOT_FOUND ==>
        && ans.block_addr >= 0 && ans in store.recs && store.recs[ans].value.Some?
        && store.recs[ans].rank == Rank(key)
    {
      hide PagesOk, BufferPool.Valid, RecordStore.Valid, Core, LowerBound, NodeOk;
      RootFacts(g, store.recs, {});
      EmptyRoot(g, store.recs);
      var now, node := EnterRoot();
      if node.n == 0 {
        pool.Release(now);
        return NOT_FOUND;
      }
      while true
        invariant Ready({now}, {}) && store.recs == old(store.recs) && On(now, node)
        invariant g.nodes[now].lo <= Rank(key) < g.nodes[now].hi
        decreases g.nodes[now].lvl
      {
        var i, hit := Probe(now, node, key);
        if node.leaf {
          ans := Answer(now, node, key, i, hit);
          return;
        }
        Route(g, store.recs, {}, now, Rank(key), i);
        ghost var kids := g.nodes[now].kids;
        var j := if hit then i + 1 else i;
        assert node.child[..node.n + 1] == kids;
        assert node.child[j] == kids[j];
        var next := node.child[j];
        NodeFacts(g, store.recs, -1, -1, {}, next);
        node := Descend(now, next);
        now := next;
      }
    }

    /** The end of the search: the leaf holds the key or no leaf does. */
    method Answer(now: nat, node: BPage, key: String, i: nat, hit: bool) returns (ans: RID)
      requires Ready({now}, {}) && Core(g, store.recs, -1, -1, {}) && On(now, node) && node.leaf
      requires g.nodes[now].lo <= Rank(key) < g.nodes[now].hi
      requires LowerBound(g.nodes[now].keys, store.recs, Rank(key), i)
      requires hit <==> i < |g.nodes[now].keys| && Rk(store.recs, g.nodes[now].keys[i]) == Rank(key)
      modifies pool.Repr
      ensures Ready({}, {})
      ensures ans == NOT_FOUND <==>
        forall r :: r in store.recs && store.recs[r].value.Some? ==> store.recs[r].rank != Rank(key)
      ensures ans != NOT_FOUND ==>
        && ans.block_addr >= 0 && ans in store.recs && store.recs[ans].value.Some?
        && store.recs[ans].rank == Rank(key)
    {
      hide PagesOk, BufferPool.Valid, RecordStore.Valid, Core, LowerBound;
      NodeFacts(g, store.recs, -1, -1, {}, now);
      OwnedKeys(g, store.recs, {});
      if hit {
        ans := node.row_ptr[i];
        assert node.row_ptr[..node.n][i] == ans;
      } else {
        AbsentEntry(g, store.recs, {}, now, Rank(key), i);
        ans := NOT_FOUND;
      }
      pool.Release(now);
    }

    /** One binary search in a node, and whether it hit the key. */
    method Probe(now: nat, node: BPage, key: String) returns (i: nat, hit: bool)
      requires Ready({now}, {}) && Core(g, store.recs, -1, -1, {}) && On(now, node)
      modifies store.Repr
      ensures Ready({now}, {}) && store.recs == old(store.recs)
      ensures LowerBound(g.nodes[now].keys, store.recs, Rank(key), i)
      ensures hit <==> i < |g.nodes[now].keys| && Rk(store.recs, g.nodes[now].keys[i]) == Rank(key)
    {
      hide PagesOk, BufferPool.Valid, RecordStore.Valid, Core;
      NodeFacts(g, store.recs, -1, -1, {}, now);
      i := LowerBoundKey(node.row_ptr, node.n, key);
      hit := false;
      if i != node.n {
        assert node.row_ptr[..node.n][i] in g.nodes[now].keys;
        var c := store.CompareKey(key, node.row_ptr[i]);
        hit := c == 0;
      }
    }

    // ---- insertion

    method ProbeRecord(now: nat, node: BPage, rid: RID, ghost extra: set<RID>) returns (i: nat, hit: bool)
      requires Ready({now}, {}) && Core(g, store.recs, -1, -1, extra) && On(now, node) && rid in store.recs
      modifies store.Repr
      ensures Ready({now}, {}) && store.recs == old(store.recs)
      ensures LowerBound(g.nodes[now].keys, store.recs, Rk(store.recs, rid), i)
      ensures hit <==> i < |g.nodes[now].keys| && Rk(store.recs, g.nodes[now].keys[i]) == Rk(store.recs, rid)
    {
      hide PagesOk, BufferPool.Valid, RecordStore.Valid, Core;
      NodeFacts(g, store.recs, -1, -1, extra, now);
      i := LowerBoundRecord(node.row_ptr, node.n, rid);
      hit := false;
      if i != node.n {
        assert node.row_ptr[..node.n][i] in g.nodes[now].keys;
        var c := store.CompareRecords(rid, node.row_ptr[i]);
        hit := c == 0;
      }
    }

    /** The descent that b_tree_insert and b_tree_delete share: to the leaf whose range contains
        the key of `rid`. */
    method FindLeaf(rid: RID, ghost extra: set<RID>) returns (now: nat, node: BPage, i: nat, hit: bool)
      requires Ready({}, {}) && Core(g, store.recs, -1, -1, extra) && rid in store.recs
        && 0.0 <= Rk(store.recs, rid) < 1.0
      modifies pool.Repr, store.Repr
      ensures Ready({now}, {}) && store.recs == old(store.recs) && On(now, node) && g.nodes[now].lvl == 0
      ensures g.nodes[now].lo <= Rk(store.recs, rid) < g.nodes[now].hi
      ensures LowerBound(g.nodes[now].keys, store.recs, Rk(store.recs, rid), i)
      ensures hit <==> i < |g.nodes[now].keys| && Rk(store.recs, g.nodes[now].keys[i]) == Rk(store.recs, rid)
      ensures pool.view == old(pool.view)
    {
      hide PagesOk, BufferPool.Valid, RecordStore.Valid, Core, LowerBound, NodeOk, Rk;
      RootFacts(g, store.recs, extra);
      now, node := EnterRoot();
      i, hit := ProbeRecord(now, node, rid, extra);
      while !node.leaf
        invariant Ready({now}, {}) && store.recs == old(store.recs) && On(now, node) && pool.view == old(pool.view)
        invariant g.nodes[now].lo <= Rk(store.recs, rid) < g.nodes[now].hi
        invariant LowerBound(g.nodes[now].keys, store.recs, Rk(store.recs, rid), i)
        invariant hit <==> i < |g.nodes[now].keys| && Rk(store.recs, g.nodes[now].keys[i]) == Rk(store.recs, rid)
        decreases g.nodes[now].lvl
      {
        Route(g, store.recs, extra, now, Rk(store.recs, rid), i);
        ghost var kids := g.nodes[now].kids;
        var j := if hit then i + 1 else i;
        assert node.child[..node.n + 1] == kids;
        assert node.child[j] == kids[j];
        var next := node.child[j];
        NodeFacts(g, store.recs, -1, -1, extra, next);
        node := Descend(now, next);
        now := next;
        i, hit := ProbeRecord(now, node, rid, extra);
      }
    }

    method InsertIntoLeaf(now: nat, node: BPage, i: nat, rid: RID)
      requires Pages({now}, {}) && On(now, node) && g.nodes[now].lvl == 0 && i <= node.n < 2 * DEGREE - 1
      modifies this`g, pool.Repr
      ensures Pages({}, {}) && g == AddKey(old(g), now, i, rid)
      ensures Extends(old(g), g)
      ensures |pool.view| == |old(pool.view)|
    {
      hide BufferPool.Valid, PagesOk;
      var row := ShiftInsert(node.row_ptr, node.n, i, rid);
      var page := node.(row_ptr := row, n := node.n + 1);
      AddedKeyPage(pool.view, g, free, now, i, rid, page);
      pool.Put(now, page);
      AddKeyExtends(g, now, i, rid);
      g := AddKey(g, now, i, rid);
      pool.Release(now);
    }

    method SplitLeafNode(now: nat, node: BPage, i: nat, rid: RID, ghost recs: Records)
        returns (y_addr: nat, node': BPage, y: BPage)
      requires Pages({now}, {}) && On(now, node) && g.nodes[now].lvl == 0 && i <= node.n == 2 * DEGREE - 1
      requires Inserted(g.nodes[now].keys, i, rid)[DEGREE] in recs
      modifies this`g, this`free, pool.Repr
      ensures y_addr !in old(g.nodes) && y_addr >= 1 && Pages({now, y_addr}, {})
      ensures g == SplitLeaf(old(g), recs, now, y_addr, i, rid)
      ensures On(now, node') && On(y_addr, y)
      ensures Drawn(old(free), |old(pool.view)|, free, |pool.view|)
    {
      hide BufferPool.Valid, PagesOk;
      NodePage(pool.view, g, free, {}, now);
      CtrlOf(pool.view, g, free, {});
      y_addr, y := NewNode({now}, {});
      NodePage(pool.view, g, free, {y_addr}, now);
      HeldPage(pool.view, g, free, {y_addr}, y_addr);
      var left, right := SplitRow(node.row_ptr, y.row_ptr, i, rid);
      y := y.(n := DEGREE, parent := node.parent, leaf := node.leaf, row_ptr := right);
      node' := node.(n := DEGREE, row_ptr := left);
      assert node.row_ptr[..node.n] == node.row_ptr;
      SplitLeafPages(pool.view, g, recs, free, now, y_addr, i, rid, node', y);
      pool.Put(y_addr, y);
      pool.Put(now, node');
      g := SplitLeaf(g, recs, now, y_addr, i, rid);
    }

    /** The parent has room: it takes the separator and the new child. */
    method LinkParent(now: nat, y_addr: nat, p_addr: nat, p: BPage, i: nat, x: RID)
      requires Pages({now, y_addr, p_addr}, {}) && On(p_addr, p) && p.n < 2 * DEGREE - 1
      requires i < |g.nodes[p_addr].kids| == |g.nodes[p_addr].keys| + 1 && g.nodes[p_addr].lvl > 0
      modifies this`g, pool.Repr
      ensures Pages({}, {}) && g == Link(old(g), p_addr, i, x, y_addr)
      ensures |pool.view| == |old(pool.view)|
    {
      hide BufferPool.Valid, PagesOk;
      var row := ShiftInsert(p.row_ptr, p.n, i, x);
      var child := ShiftInsert(p.child, p.n + 1, i + 1, y_addr);
      var page := p.(row_ptr := row, child := child, n := p.n + 1);
      LinkedPages(pool.view, g, free, y_addr, p_addr, i, x, page);
      pool.Put(p_addr, page);
      g := Link(g, p_addr, i, x, y_addr);
      pool.Release(now);
      pool.Release(y_addr);
      pool.Release(p_addr);
    }

    /** Give the first m pages of `kids` a new parent, one after the other. */
    method AdoptKids(kids: seq<int>, m: nat, parent: int)
      requires pool.Valid() && |pool.pinned| < MAX_PINNED && m <= |kids|
      requires forall j :: 0 <= j < m ==>
        0 <= kids[j] < |pool.view| && pool.view[kids[j]].BNode? && kids[j] !in pool.pinned
      modifies pool.Repr
      ensures pool.Valid() && pool.pinned == old(pool.pinned) && pool.view == Adopted(old(pool.view), kids[..m], parent)
    {
      hide BufferPool.Valid, Adopted;
      AdoptNone(pool.view, kids, parent);
      for j := 0 to m
        invariant pool.Valid() && pool.pinned == old(pool.pinned)
          && pool.view == Adopted(old(pool.view), kids[..j], parent)
      {
        AdoptOne(old(pool.view), kids, j, parent);
        var node := Pin(kids[j]);
        pool.Put(kids[j], node.(parent := parent));
        pool.Release(kids[j]);
      }
    }

    /** Both halves of the children of a split node learn their parent. */
    method AdoptHalves(ch: seq<int>, n: nat, p_addr: nat, tmp_addr: nat, ghost held: set<int>)
      requires pool.Valid() && pool.pinned == {p_addr, tmp_addr} && PagesOk(pool.view, g, free, held)
        && tmp_addr in held
      requires n <= |ch| && forall c :: c in ch ==> c in g.nodes && c != p_addr
      modifies pool.Repr
      ensures pool.Valid() && pool.pinned == old(pool.pinned)
      ensures pool.view == Adopted(Adopted(old(pool.view), ch[..n], p_addr), ch[n..], tmp_addr)
      ensures |pool.view| == |old(pool.view)|
    {
      hide BufferPool.Valid, PagesOk, Adopted;
      ghost var view := pool.view;
      KidPages(view, g, free, held, ch);
      AdoptKids(ch, n, p_addr);
      AdoptedFacts(view, ch[..n], p_addr);
      AdoptedFacts(Adopted(view, ch[..n], p_addr), ch[n..], tmp_addr);
      AdoptKids(ch[n..], |ch| - n, tmp_addr);
      assert ch[n..][..|ch| - n] == ch[n..];
    }

    /** The parent is full: it splits, and the next separator is the key in its middle. */
    method SplitInnerNode(now: nat, y_addr: nat, p_addr: nat, p: BPage, i: nat, x: RID, ghost recs: Records)
        returns (tmp_addr: nat, p': BPage, tmp: BPage, rid: RID)
      requires Pages({now, y_addr, p_addr}, {}) && On(p_addr, p) && p.n == 2 * DEGREE - 1 && g.nodes[p_addr].lvl > 0
      requires i < |g.nodes[p_addr].kids| == 2 * DEGREE && now != p_addr && y_addr != p_addr && now in g.nodes
      requires Brood(g, p_addr, y_addr, g.nodes[p_addr].kids)
      requires Inserted(g.nodes[p_addr].keys, i, x)[DEGREE - 1] in recs
      modifies this`g, this`free, pool.Repr
      ensures tmp_addr !in old(g.nodes) && tmp_addr >= 1 && Pages({p_addr, tmp_addr}, {})
      ensures g == SplitInner(old(g), recs, p_addr, i, x, y_addr, tmp_addr)
      ensures On(p_addr, p') && On(tmp_addr, tmp)
      ensures rid == Inserted(old(g).nodes[p_addr].keys, i, x)[DEGREE - 1]
      ensures Drawn(old(free), |old(pool.view)|, free, |pool.view|)
    {
      hide BufferPool.Valid, PagesOk, Brood, Adopted, SplitInner, Inserted, Shows;
      NodePage(pool.view, g, free, {}, p_addr);
      CtrlOf(pool.view, g, free, {});
      BroodFacts(g, p_addr, y_addr, g.nodes[p_addr].kids);
      var blank;
      tmp_addr, blank := NewNode({now, y_addr, p_addr}, {});
      pool.Release(now);
      pool.Release(y_addr);
      p', tmp, rid := WriteInner(y_addr, p_addr, p, tmp_addr, blank, i, x, recs);
    }

    method WriteInner(y_addr: nat, p_addr: nat, p: BPage, tmp_addr: nat, blank: BPage, i: nat, x: RID,
        ghost recs: Records)
        returns (p': BPage, tmp: BPage, rid: RID)
      requires Pages({p_addr, tmp_addr}, {tmp_addr}) && On(p_addr, p) && p.n == 2 * DEGREE - 1
        && g.nodes[p_addr].lvl > 0
      requires i < |g.nodes[p_addr].kids| == 2 * DEGREE && Proper(blank) && tmp_addr !in g.nodes
      requires Brood(g, p_addr, y_addr, g.nodes[p_addr].kids)
      requires Inserted(g.nodes[p_addr].keys, i, x)[DEGREE - 1] in recs
      modifies this`g, pool.Repr
      ensures Pages({p_addr, tmp_addr}, {}) && g == SplitInner(old(g), recs, p_addr, i, x, y_addr, tmp_addr)
      ensures On(p_addr, p') && On(tmp_addr, tmp)
      ensures rid == Inserted(old(g).nodes[p_addr].keys, i, x)[DEGREE - 1]
      ensures |pool.view| == |old(pool.view)|
    {
      hide BufferPool.Valid, PagesOk, Brood, Adopted, Inserted;
      HeldPage(pool.view, g, free, {tmp_addr}, tmp_addr);
      BroodFacts(g, p_addr, y_addr, g.nodes[p_addr].kids);
      assert p.row_ptr[..p.n] == p.row_ptr && p.child[..p.n + 1] == p.child;
      p', tmp, rid := DealInner(p, blank, i, x, y_addr);
      var ch := SpreadKids(p.child, i + 1, y_addr);
      InsertAt(p.child, i + 1, y_addr);
      SplitBrood(g, p_addr, y_addr, g.nodes[p_addr].kids, i + 1, ch, DEGREE);
      ghost var view := pool.view;
      AdoptHalves(ch, DEGREE, p_addr, tmp_addr, {tmp_addr});
      pool.Put(tmp_addr, tmp);
      pool.Put(p_addr, p');
      SplitInnerPages(view, g, recs, free, y_addr, p_addr, i, x, tmp_addr, p', tmp, pool.view);
      g := SplitInner(g, recs, p_addr, i, x, y_addr, tmp_addr);
    }

    /** The rows and child arrays of both halves. */
    method DealInner(p: BPage, blank: BPage, i: nat, x: RID, y_addr: nat) returns (p': BPage, tmp: BPage, rid: RID)
      requires Proper(p) && Proper(blank) && p.n == 2 * DEGREE - 1 && i <= p.n
      ensures Proper(p') && p' == p.(n := DEGREE - 1, row_ptr := p'.row_ptr, child := p'.child)
      ensures Proper(tmp) && tmp.n == DEGREE && tmp.parent == p.parent && tmp.leaf == p.leaf
      ensures p'.row_ptr[..DEGREE - 1] == Inserted(p.row_ptr, i, x)[..DEGREE - 1]
      ensures tmp.row_ptr[..DEGREE] == Inserted(p.row_ptr, i, x)[DEGREE..]
      ensures p'.child[..DEGREE] == Inserted(p.child, i + 1, y_addr)[..DEGREE]
      ensures tmp.child[..DEGREE + 1] == Inserted(p.child, i + 1, y_addr)[DEGREE..]
      ensures rid == Inserted(p.row_ptr, i, x)[DEGREE - 1]
    {
      hide Inserted;
      var left, right := SplitRow(p.row_ptr, blank.row_ptr, i, x);
      rid := left[DEGREE - 1];
      InsertAt(p.row_ptr, i, x);
      assert left[..DEGREE][DEGREE - 1] == rid && left[..DEGREE][..DEGREE - 1] == left[..DEGREE - 1];
      var low, high := DealKids(p.child, blank.child, i + 1, y_addr);
      p' := p.(n := DEGREE - 1, row_ptr := left, child := low);
      tmp := blank.(n := DEGREE, parent := p.parent, leaf := p.leaf, row_ptr := right, child := high);
    }

    /** The root was split: a new root gets both halves. */
    method SplitRoot(now: nat, node: BPage, y_addr: nat, y: BPage, x: RID)
      requires Pages({now, y_addr}, {}) && On(now, node) && On(y_addr, y) && now == g.root && now != y_addr
      modifies this`g, this`free, pool.Repr
      ensures exists np :: np !in old(g.nodes) && np >= 1 && g == NewRoot(old(g), np, x, y_addr)
      ensures Pages({}, {})
      ensures Drawn(old(free), |old(pool.view)|, free, |pool.view|)
    {
      hide BufferPool.Valid, PagesOk, NewRoot;
      CtrlOf(pool.view, g, free, {});
      var p_addr, blank := NewNode({now, y_addr}, {});
      HeldPage(pool.view, g, free, {p_addr}, p_addr);
      CtrlOf(pool.view, g, free, {p_addr});
      var p := blank.(n := 1, next := -1, parent := -1, child := blank.child[0 := now][1 := y_addr],
        row_ptr := blank.row_ptr[0 := x], leaf := false);
      NewRootPages(pool.view, g, free, y_addr, x, p_addr, p);
      NewRootWrites(now, node, y_addr, y, p_addr, p);
      g := NewRoot(g, p_addr, x, y_addr);
    }

    method NewRootWrites(now: nat, node: BPage, y_addr: nat, y: BPage, p_addr: nat, p: BPage)
      requires pool.Valid() && pool.pinned == {now, y_addr, p_addr} && 0 !in pool.pinned
      requires 0 < now < |pool.view| && 0 < y_addr < |pool.view| && 0 < p_addr < |pool.view| && now != y_addr
        && now != p_addr && y_addr != p_addr
      requires node == pool.view[now] && node.BNode? && y == pool.view[y_addr] && y.BNode? && pool.view[0].BCtrl?
      modifies pool.Repr
      ensures pool.Valid() && pool.pinned == {}
      ensures
        var view := old(pool.view);
        pool.view ==
          view[p_addr := p][y_addr := y.(parent := p_addr)][now := node.(parent := p_addr)]
            [0 := view[0].(root_node := p_addr)]
    {
      hide BufferPool.Valid;
      pool.Put(p_addr, p);
      pool.Put(y_addr, y.(parent := p_addr));
      pool.Put(now, node.(parent := p_addr));
      pool.Release(now);
      pool.Release(y_addr);
      var ctr := Pin(0);
      pool.Put(0, ctr.(root_node := p_addr));
      pool.Release(0);
      pool.Release(p_addr);
    }

    /** The key that goes into an inner node: a fresh copy made by insert_handler the first time,
        afterwards the key that the split below moved up. */
    method Separator(rid: RID, handler: bool, ghost left: int, ghost right: int) returns (x: RID)
      requires this !in store.Repr && store.Valid() && rid in store.recs
      requires Core(g, store.recs, left, right, if handler then {} else {rid})
      requires !handler ==> store.recs[rid].value.None?
      modifies store.Repr
      ensures store.Valid() && x in store.recs && store.recs[x].value.None?
        && store.recs[x].rank == old(store.recs)[rid].rank
      ensures Core(g, store.recs, left, right, {x}) && Entries(store.recs) == old(Entries(store.recs))
      ensures forall r :: r in old(store.recs) ==> r in store.recs && store.recs[r] == old(store.recs)[r]
    {
      hide RecordStore.Valid, Core;
      if handler {
        CoreKeys(g, store.recs, left, right, {});
        x := store.InsertHandler(rid);
        RecordsChange(g, old(store.recs), left, right, {}, store.recs, {x});
      } else {
        x := rid;
      }
    }

    /** One round of the loop that carries a split upwards: the pages `now` and `y_addr` are the
        two halves, `rid` holds the key between them. */
    ghost predicate Rising(now: int, node: BPage, y_addr: int, y: BPage, rid: RID, handler: bool, top: nat)
      reads this, pool, pool.Repr, store, store.Repr
    {
      && now != y_addr && y_addr != -1 && now in g.nodes && |g.nodes[now].keys| >= DEGREE - 1
      && Ready({now, y_addr}, {}) && On(now, node) && On(y_addr, y)
      && Core(g, store.recs, now, y_addr, if handler then {} else {rid}) && Fill(g.nodes, g.root, -1, -1)
      && rid in store.recs && Rk(store.recs, rid) == g.nodes[y_addr].lo && (!handler ==> store.recs[rid].value.None?)
      && (forall c :: c in g.nodes ==> g.nodes[c].lvl <= top)
    }

    /** The page above `now` is pinned too, and `x` is to go to position `i` there. */
    ghost predicate Linking(now: int, y_addr: int, p_addr: int, p: BPage, i: nat, x: RID, top: nat)
      reads this, pool, pool.Repr, store, store.Repr
    {
      && y_addr != -1 && now != g.root && now in g.nodes && y_addr in g.nodes
      && Ready({now, y_addr, p_addr}, {}) && On(p_addr, p) && p_addr == g.nodes[now].parent
      && Core(g, store.recs, now, y_addr, {x}) && Fill(g.nodes, g.root, -1, -1)
      && x in store.recs && Rk(store.recs, x) == g.nodes[y_addr].lo && store.recs[x].value.None?
      && LowerBound(g.nodes[p_addr].keys, store.recs, Rk(store.recs, x), i)
      && (forall c :: c in g.nodes ==> g.nodes[c].lvl <= top)
    }

    method EnterParent(now: nat, node: BPage, y_addr: nat, y: BPage, rid: RID, handler: bool, ghost top: nat)
        returns (p_addr: nat, p: BPage, i: nat)
      requires Rising(now, node, y_addr, y, rid, handler, top) && node.parent >= 0
      modifies pool.Repr, store.Repr
      ensures store.recs == old(store.recs)
      ensures Ready({now, y_addr, p_addr}, {}) && On(p_addr, p) && p_addr == g.nodes[now].parent && now != g.root
      ensures LowerBound(g.nodes[p_addr].keys, store.recs, Rk(store.recs, rid), i)
      ensures pool.view == old(pool.view)
    {
      hide PagesOk, BufferPool.Valid, RecordStore.Valid, Core, LowerBound, Fill;
      ghost var extra := if handler then {} else {rid};
      LoneParent(g, store.recs, now, y_addr, extra);
      p_addr := node.parent;
      NodePage(pool.view, g, free, {}, p_addr);
      NodeFacts(g, store.recs, now, y_addr, extra, p_addr);
      ParentApart(g, store.recs, now, y_addr, extra);
      p := Pin(p_addr);
      i := LowerBoundRecord(p.row_ptr, p.n, rid);
    }

    method RaiseSplit(now: nat, y_addr: nat, p_addr: nat, p: BPage, i: nat, x: RID, ghost top: nat)
        returns (p': BPage, tmp_addr: nat, tmp: BPage, rid: RID)
      requires Linking(now, y_addr, p_addr, p, i, x, top) && p.n == 2 * DEGREE - 1
      modifies this`g, this`free, pool.Repr
      ensures Rising(p_addr, p', tmp_addr, tmp, rid, false, top) && g.nodes[p_addr].lvl > old(g).nodes[now].lvl
      ensures Extends(old(g), g)
      ensures Drawn(old(free), |old(pool.view)|, free, |pool.view|)
      ensures Leaves(g) == Leaves(old(g))
    {
      hide PagesOk, BufferPool.Valid, RecordStore.Valid, Core, LowerBound, Fill, Inserted, SplitInner, Brood, Extends,
        Leaves;
      FullParent(g, store.recs, now, y_addr, p_addr, i, x, top);
      ghost var before := g;
      tmp_addr, p', tmp, rid := SplitInnerNode(now, y_addr, p_addr, p, i, x, store.recs);
      SplitInnerLeaves(before, store.recs, p_addr, i, x, y_addr, tmp_addr);
      SplitInnerExtends(before, store.recs, p_addr, i, x, y_addr, tmp_addr);
      SplitInnerOk(before, store.recs, now, y_addr, p_addr, i, x, tmp_addr, top);
    }

    method RaiseLink(now: nat, y_addr: nat, p_addr: nat, p: BPage, i: nat, x: RID, ghost top: nat)
      requires Linking(now, y_addr, p_addr, p, i, x, top) && p.n != 2 * DEGREE - 1
      modifies this`g, pool.Repr
      ensures Ready({}, {}) && WellFormed(g, store.recs, {})
      ensures Extends(old(g), g)
      ensures |pool.view| == |old(pool.view)|
      ensures Leaves(g) == Leaves(old(g))
    {
      hide PagesOk, BufferPool.Valid, RecordStore.Valid, Core, LowerBound, Fill, WellFormed, Extends, Leaves;
      LinkedOk(g, store.recs, now, y_addr, p_addr, i, x, top);
      LinkLeaves(g, p_addr, i, x, y_addr);
      LinkExtends(g, p_addr, i, x, y_addr);
      LinkParent(now, y_addr, p_addr, p, i, x);
    }

    method RaiseToParent(now: nat, node: BPage, y_addr: nat, y: BPage, rid: RID, handler: bool, ghost top: nat)
        returns (done: bool, now': nat, node': BPage, y_addr': nat, y': BPage, rid': RID)
      requires Rising(now, node, y_addr, y, rid, handler, top) && node.parent >= 0
      modifies this`g, this`free, pool.Repr, store.Repr
      ensures Entries(store.recs) == old(Entries(store.recs))
      ensures done ==> Ready({}, {}) && WellFormed(g, store.recs, {})
      ensures !done ==> Rising(now', node', y_addr', y', rid', false, top) && g.nodes[now'].lvl > old(g).nodes[now].lvl
      ensures Extends(old(g), g)
      ensures Drawn(old(free), |old(pool.view)|, free, |pool.view|)
      ensures Leaves(g) == Leaves(old(g))
    {
      hide PagesOk, BufferPool.Valid, RecordStore.Valid, Core, LowerBound, Fill, WellFormed, Entries, Extends,
        Leaves;
      LoneParent(g, store.recs, now, y_addr, if handler then {} else {rid});
      var p_addr, p, i := EnterParent(now, node, y_addr, y, rid, handler, top);
      ghost var recs := store.recs;
      var x := Separator(rid, handler, now, y_addr);
      SameLowerBound(g, recs, store.recs, now, y_addr, if handler then {} else {rid}, p_addr, Rk(recs, rid), i);
      now', node', y_addr', y', rid' := now, node, y_addr, y, rid;
      if p.n == 2 * DEGREE - 1 {
        node', y_addr', y', rid' := RaiseSplit(now, y_addr, p_addr, p, i, x, top);
        now' := p_addr;
        done := false;
      } else {
        RaiseLink(now, y_addr, p_addr, p, i, x, top);
        done := true;
      }
    }

    method StartSplit(now: nat, node: BPage, i: nat, rid: RID)
        returns (node': BPage, y_addr: nat, y: BPage, sep: RID, ghost top: nat)
      requires Ready({now}, {}) && WellFormed(g, store.recs, {rid}) && rid in store.recs && store.recs[rid].value.Some?
      requires On(now, node) && g.nodes[now].lvl == 0 && node.n == 2 * DEGREE - 1
      requires g.nodes[now].lo <= Rk(store.recs, rid) < g.nodes[now].hi
      requires Gap(g.nodes[now].keys, store.recs, Rk(store.recs, rid), i)
      modifies this`g, this`free, pool.Repr
      ensures Rising(now, node', y_addr, y, sep, true, top)
      ensures Extends(old(g), g)
      ensures Drawn(old(free), |old(pool.view)|, free, |pool.view|)
      ensures Parted(old(g), rid, now, i, y_addr, g)
    {
      hide PagesOk, BufferPool.Valid, RecordStore.Valid, Core, Gap, Fill, Inserted, SplitLeaf, Extends, Parted;
      top := MaxLevel(g.nodes, g.nodes.Keys);
      ghost var before := g;
      GapBound(g.nodes[now].keys, store.recs, Rk(store.recs, rid), i);
      SplitLeafKey(g, store.recs, now, i, rid);
      y_addr, node', y := SplitLeafNode(now, node, i, rid, store.recs);
      SplitLeafOk(before, store.recs, now, y_addr, i, rid, top);
      SplitLeafParts(before, store.recs, now, y_addr, i, rid);
      SplitLeafExtends(before, store.recs, now, y_addr, i, rid);
      sep := y.row_ptr[0];
      SplitLeafFirst(before, store.recs, now, y_addr, i, rid, y);
    }

    /** The loop reached the root. */
    method FinishAtRoot(now: nat, node: BPage, y_addr: nat, y: BPage, sep: RID, handler: bool, ghost top: nat)
      requires Rising(now, node, y_addr, y, sep, handler, top) && node.parent < 0
      modifies this`g, this`free, pool.Repr, store.Repr
      ensures Ready({}, {}) && WellFormed(g, store.recs, {})
      ensures Entries(store.recs) == old(Entries(store.recs))
      ensures Grows(old(g), g)
      ensures Drawn(old(free), |old(pool.view)|, free, |pool.view|)
      ensures Leaves(g) == Leaves(old(g))
    {
      hide PagesOk, BufferPool.Valid, RecordStore.Valid, Core, WellFormed, Entries, Fill, NewRoot, Grows, Leaves;
      LoneParent(g, store.recs, now, y_addr, if handler then {} else {sep});
      var x := Separator(sep, handler, now, y_addr);
      ghost var before := g;
      RootHalf(g, store.recs, y_addr, {x});
      SplitRoot(now, node, y_addr, y, x);
      ghost var np :| np !in before.nodes && np >= 1 && g == NewRoot(before, np, x, y_addr);
      NewRootLeaves(before, np, x, y_addr);
      NewRootGrows(before, np, x, y_addr);
      NewRootStep(before, store.recs, y_addr, x, np);
    }

    /** The leaf is full: it splits, and the split moves up as far as it must. */
    method SplitUpwards(now: nat, node: BPage, i: nat, rid: RID)
      requires Ready({now}, {}) && WellFormed(g, store.recs, {rid}) && rid in store.recs && store.recs[rid].value.Some?
      requires On(now, node) && g.nodes[now].lvl == 0 && node.n == 2 * DEGREE - 1
      requires g.nodes[now].lo <= Rk(store.recs, rid) < g.nodes[now].hi
      requires Gap(g.nodes[now].keys, store.recs, Rk(store.recs, rid), i)
      modifies this`g, this`free, pool.Repr, store.Repr
      ensures Ready({}, {}) && WellFormed(g, store.recs, {})
      ensures Entries(store.recs) == old(Entries(store.recs))
      ensures Grows(old(g), g)
      ensures Drawn(old(free), |old(pool.view)|, free, |pool.view|)
      ensures Entered(old(g), rid, now, i, g)
    {
      hide PagesOk, BufferPool.Valid, RecordStore.Valid, Core, Entries, WellFormed, Gap, Fill, Extends, Grows,
        Drawn, Parted, Leaves, Entered;
      ghost var top;
      ghost var leaf := now;
      var now, node, y_addr, y, sep := now, node, 0, node, rid;
      node, y_addr, y, sep, top := StartSplit(now, node, i, rid);
      ghost var half := g;
      ghost var right := y_addr;
      var handler := true;
      while node.parent >= 0
        invariant Rising(now, node, y_addr, y, sep, handler, top)
        invariant Extends(old(g), g) && Leaves(g) == Leaves(half)
        invariant Drawn(old(free), |old(pool.view)|, free, |pool.view|)
        invariant Entries(store.recs) == old(Entries(store.recs))
        decreases top - g.nodes[now].lvl
      {
        var done;
        ghost var before, free1, len1 := g, free, |pool.view|;
        done, now, node, y_addr, y, sep := RaiseToParent(now, node, y_addr, y, sep, handler, top);
        ExtendsOn(old(g), before, g);
        DrawnOn(old(free), |old(pool.view)|, free1, len1, free, |pool.view|);
        if done {
          PartedLater(old(g), rid, leaf, i, right, half, g);
          return;
        }
        handler := false;
      }
      ghost var before, free1, len1 := g, free, |pool.view|;
      FinishAtRoot(now, node, y_addr, y, sep, handler, top);
      PartedLater(old(g), rid, leaf, i, right, half, g);
      Taller(old(g), before, g);
      DrawnOn(old(free), |old(pool.view)|, free1, len1, free, |pool.view|);
    }

    /** b_tree_insert of the record `rid`, whose key no entry has yet: it enters the leaf with its
        key in range, `leaf`, at position `i`. */
    method Insert(rid: RID) returns (nothing: RID, ghost leaf: int, ghost i: nat)
      requires Ready({}, {}) && WellFormed(g, store.recs, {rid}) && rid in store.recs && store.recs[rid].value.Some?
      requires forall r :: r in store.recs && store.recs[r].value.Some? && r != rid ==>
        store.recs[r].rank != store.recs[rid].rank
      modifies this`g, this`free, pool.Repr, store.Repr
      ensures Ready({}, {}) && WellFormed(g, store.recs, {}) && nothing == NOT_FOUND
      ensures Entries(store.recs) == old(Entries(store.recs))
      ensures Grows(old(g), g)
      ensures Drawn(old(free), |old(pool.view)|, free, |pool.view|)
      ensures Entered(old(g), rid, leaf, i, g)
      ensures leaf in old(g).nodes && old(g).nodes[leaf].lo <= Rk(old(store.recs), rid) < old(g).nodes[leaf].hi
    {
      hide PagesOk, BufferPool.Valid, RecordStore.Valid, Core, Entries, AddKey, Fill, LowerBound;
      nothing := NOT_FOUND;
      var now, node, at, hit := FindLeaf(rid, {rid});
      leaf, i := now, at;
      EmptySlot(g, store.recs, now, rid, at);
      if node.n == 2 * DEGREE - 1 {
        SplitUpwards(now, node, at, rid);
      } else {
        AddedKey(g, store.recs, now, at, rid);
        GapBound(g.nodes[now].keys, store.recs, Rk(store.recs, rid), at);
        InsertIntoLeaf(now, node, at, rid);
      }
    }

    // ---- deletion

    method RemoveFromLeaf(now: nat, node: BPage, i: nat) returns (node': BPage)
      requires Pages({now}, {}) && On(now, node) && g.nodes[now].lvl == 0 && i < node.n
      modifies this`g, pool.Repr
      ensures Pages({now}, {}) && g == RemoveKey(old(g), now, i) && On(now, node')
      ensures Extends(g, old(g))
      ensures g.nodes.Keys == old(g.nodes.Keys) && |pool.view| == |old(pool.view)|
    {
      hide BufferPool.Valid, PagesOk;
      var row := ShiftDelete(node.row_ptr, node.n, i);
      node' := node.(row_ptr := row, n := node.n - 1);
      RemovedKeyPages(pool.view, g, free, now, i, node');
      pool.Put(now, node');
      RemoveKeyExtends(g, now, i);
      g := RemoveKey(g, now, i);
    }

    /** Which child of `p` page `now` is. */
    method FindIndex(p: BPage, now: int) returns (index: nat)
      requires Proper(p) && p.n < |p.child| && now in p.child[..p.n + 1]
      ensures index <= p.n && p.child[index] == now
    {
      index := 0;
      for j := 0 to p.n + 1
        invariant forall k :: 0 <= k < j ==> p.child[k] != now
      {
        if p.child[j] == now {
          return j;
        }
      }
    }

    /** Two neighbouring leaves and their parent are written and released. */
    method WriteThree(a: nat, ap: BPage, b: nat, bp: BPage, p_addr: nat, p: BPage)
      requires pool.Valid() && pool.pinned == {a, b, p_addr}
      requires a < |pool.view| && b < |pool.view| && p_addr < |pool.view|
      modifies pool.Repr
      ensures pool.Valid() && pool.pinned == {} && pool.view == old(pool.view)[a := ap][b := bp][p_addr := p]
    {
      hide BufferPool.Valid;
      pool.Put(a, ap);
      pool.Put(b, bp);
      pool.Put(p_addr, p);
      pool.Release(a);
      pool.Release(b);
      pool.Release(p_addr);
    }

    /** The separator between two leaves is destroyed and a copy of `b`, the new first key of the
        right one, is made to replace it. */
    method Reseparate(p_addr: int, sep: RID, b: RID, ghost k: nat, ghost n: nat, ghost extra: set<RID>) returns (x: RID)
      requires this !in store.Repr && store.Valid() && Core(g, store.recs, -1, -1, extra)
      requires p_addr in g.nodes && g.nodes[p_addr].lvl == 1 && k < |g.nodes[p_addr].keys|
        && sep == g.nodes[p_addr].keys[k]
      requires Mergeable(g.nodes, p_addr, k) && 0 < n < |JoinedKeys(g, p_addr, k)| && b == JoinedKeys(g, p_addr, k)[n]
      modifies store.Repr
      ensures store.Valid() && x in store.recs && g.nodes[g.nodes[p_addr].kids[k]].lvl == 0
        && JoinedKeys(g, p_addr, k)[n] in store.recs
      ensures Core(RecutLeaves(g, store.recs, p_addr, k, n, x), store.recs, -1, -1, extra)
      ensures LeavesRecut(g, store.recs, p_addr, k, n, x, RecutLeaves(g, store.recs, p_addr, k, n, x))
      ensures Entries(store.recs) == old(Entries(store.recs))
    {
      hide RecordStore.Valid, Core, Mergeable, RecutLeaves, LeavesRecut;
      ghost var recs := store.recs;
      LeafSiblings(g, recs, extra, p_addr, k);
      Neighbours(g, recs, extra, p_addr, k);
      assert b in JoinedKeys(g, p_addr, k);
      store.DeleteHandler(sep);
      x := store.InsertHandler(b);
      assert Reseparated(recs, sep, b, x, store.recs);
      RecutLeavesOk(g, recs, store.recs, extra, p_addr, k, n, x);
    }

    /** Child k and child k+1 of page `p_addr` and that page are pinned; one child is thin. */
    ghost predicate Pair(l: int, lp: BPage, r: int, rp: BPage, p_addr: int, p: BPage, k: nat, thin: int,
        extra: set<RID>)
      reads this, pool, pool.Repr, store, store.Repr
    {
      && Ready({l, r, p_addr}, {}) && On(l, lp) && On(r, rp) && On(p_addr, p)
      && Core(g, store.recs, -1, -1, extra) && Fill(g.nodes, g.root, -1, thin) && (thin == l || thin == r)
      && g.nodes[p_addr].lvl > 0 && k < |g.nodes[p_addr].keys| && Mergeable(g.nodes, p_addr, k)
      && g.nodes[p_addr].kids[k] == l && g.nodes[p_addr].kids[k + 1] == r
    }

    /** Both borrows between leaves end alike: the first n of the joined keys stay left, the
        others go right, and the separator is replaced. */
    method FinishBorrowLeaf(l: nat, lp: BPage, r: nat, rp: BPage, p_addr: nat, p: BPage, k: nat, lp': BPage, rp': BPage,
                            ghost thin: int, ghost n: nat, ghost extra: set<RID>)
      requires Pair(l, lp, r, rp, p_addr, p, k, thin, extra) && g.nodes[p_addr].lvl == 1
      requires DEGREE - 1 <= n <= 2 * DEGREE - 1 && DEGREE - 1 <= |JoinedKeys(g, p_addr, k)| - n <= 2 * DEGREE - 1
      requires Proper(lp') && lp' == lp.(n := n, row_ptr := lp'.row_ptr)
        && lp'.row_ptr[..n] == JoinedKeys(g, p_addr, k)[..n]
      requires Proper(rp') && rp' == rp.(n := |JoinedKeys(g, p_addr, k)| - n, row_ptr := rp'.row_ptr)
      requires rp'.row_ptr[..rp'.n] == JoinedKeys(g, p_addr, k)[n..]
      modifies this`g, pool.Repr, store.Repr
      ensures Ready({}, {}) && WellFormed(g, store.recs, extra)
      ensures Entries(store.recs) == old(Entries(store.recs))
      ensures Extends(g, old(g))
      ensures g.nodes.Keys == old(g.nodes.Keys) && |pool.view| == |old(pool.view)|
      ensures Shared(old(g), p_addr, k, n, g)
    {
      hide BufferPool.Valid, PagesOk, RecordStore.Valid, Core, Fill, JoinedKeys, RecutLeaves, LeavesRecut, Entries,
        Mergeable, Extends, Shared;
      Neighbours(g, store.recs, extra, p_addr, k);
      ShownKey(g, p_addr, p, k);
      ghost var recs := store.recs;
      assert rp'.row_ptr[..rp'.n][0] == rp'.row_ptr[0];
      var x := Reseparate(p_addr, p.row_ptr[k], rp'.row_ptr[0], k, n, extra);
      ghost var g' := RecutLeaves(g, store.recs, p_addr, k, n, x);
      var p' := p.(row_ptr := p.row_ptr[k := x]);
      CoreRoot(g, recs, extra);
      RecutLeavesFill(g, store.recs, p_addr, k, n, x, g', thin);
      RecutLeavesPages(pool.view, g, free, store.recs, p_addr, k, n, x, g', lp', rp', p');
      WriteThree(l, lp', r, rp', p_addr, p');
      RecutShared(g, store.recs, p_addr, k, n, x, g');
      LeavesRecutExtends(g, store.recs, p_addr, k, n, x, g');
      g := g';
    }

    /** Page `now`, child `index` of page `p_addr`, is thin; both are pinned. */
    ghost predicate Thin(now: int, node: BPage, p_addr: int, p: BPage, index: nat, extra: set<RID>)
      reads this, pool, pool.Repr, store, store.Repr
    {
      && Ready({now, p_addr}, {}) && On(now, node) && On(p_addr, p)
      && Core(g, store.recs, -1, -1, extra) && Fill(g.nodes, g.root, -1, now) && node.n < DEGREE - 1
      && g.nodes[p_addr].lvl == g.nodes[now].lvl + 1 && |g.nodes[p_addr].kids| == |g.nodes[p_addr].keys| + 1
      && index <= |g.nodes[p_addr].keys| && g.nodes[p_addr].kids[index] == now && now != g.root
        && |g.nodes[p_addr].keys| >= 1
    }

    /** Pin the neighbour of `now` that, together with it, makes children k and k+1. */
    method PinSibling(now: nat, node: BPage, p_addr: nat, p: BPage, index: nat, other: nat, ghost extra: set<RID>)
        returns (sib_addr: nat, sib: BPage)
      requires Thin(now, node, p_addr, p, index, extra) && other <= |g.nodes[p_addr].keys|
        && (other == index + 1 || other + 1 == index)
      modifies pool.Repr
      ensures sib_addr == g.nodes[p_addr].kids[other]
      ensures var k := if other < index then other else index;
        if other < index then Pair(sib_addr, sib, now, node, p_addr, p, k, now, extra)
        else Pair(now, node, sib_addr, sib, p_addr, p, k, now, extra)
      ensures sib.n >= DEGREE - 1 && sib_addr != now && sib_addr != p_addr
      ensures pool.view == old(pool.view)
    {
      hide BufferPool.Valid, PagesOk, RecordStore.Valid, Core;
      var k := if other < index then other else index;
      Neighbours(g, store.recs, extra, p_addr, k);
      CoreRoot(g, store.recs, extra);
      assert p.child[..p.n + 1][other] == p.child[other];
      NodePage(pool.view, g, free, {}, p.child[other]);
      sib_addr := p.child[other];
      sib := Pin(sib_addr);
    }

    method BorrowLeftLeaf(now: nat, node: BPage, sib_addr: nat, sib: BPage, p_addr: nat, p: BPage, index: nat,
        ghost extra: set<RID>)
      requires index > 0 && Pair(sib_addr, sib, now, node, p_addr, p, index - 1, now, extra)
      requires g.nodes[p_addr].lvl == 1 && sib.n > DEGREE - 1 && node.n < DEGREE - 1 && now != g.root
      modifies this`g, pool.Repr, store.Repr
      ensures Ready({}, {}) && WellFormed(g, store.recs, extra) && Entries(store.recs) == old(Entries(store.recs))
      ensures Extends(g, old(g))
      ensures g.nodes.Keys == old(g.nodes.Keys) && |pool.view| == |old(pool.view)|
      ensures Shared(old(g), p_addr, index - 1, sib.n - 1, g)
    {
      hide BufferPool.Valid, PagesOk, RecordStore.Valid, Core, Mergeable, Shared;
      var row := ShiftInsert(node.row_ptr, node.n, 0, sib.row_ptr[sib.n - 1]);
      var node' := node.(row_ptr := row, n := node.n + 1);
      var sib' := sib.(n := sib.n - 1);
      TakeLast(sib.row_ptr[..sib.n], node.row_ptr[..node.n]);
      assert sib.row_ptr[..sib.n][sib.n - 1] == sib.row_ptr[sib.n - 1]
        && sib.row_ptr[..sib.n][..sib.n - 1] == sib.row_ptr[..sib.n - 1];
      FinishBorrowLeaf(sib_addr, sib, now, node, p_addr, p, index - 1, sib', node', now, sib.n - 1, extra);
    }

    method BorrowRightLeaf(now: nat, node: BPage, sib_addr: nat, sib: BPage, p_addr: nat, p: BPage, index: nat,
        ghost extra: set<RID>)
      requires Pair(now, node, sib_addr, sib, p_addr, p, index, now, extra)
      requires g.nodes[p_addr].lvl == 1 && sib.n > DEGREE - 1 && node.n < DEGREE - 1 && now != g.root
      modifies this`g, pool.Repr, store.Repr
      ensures Ready({}, {}) && WellFormed(g, store.recs, extra) && Entries(store.recs) == old(Entries(store.recs))
      ensures Extends(g, old(g))
      ensures g.nodes.Keys == old(g.nodes.Keys) && |pool.view| == |old(pool.view)|
      ensures Shared(old(g), p_addr, index, node.n + 1, g)
    {
      hide BufferPool.Valid, PagesOk, RecordStore.Valid, Core, Mergeable, Shared;
      var node' := node.(row_ptr := node.row_ptr[node.n := sib.row_ptr[0]], n := node.n + 1);
      var row := ShiftDelete(sib.row_ptr, sib.n, 0);
      var sib' := sib.(row_ptr := row, n := sib.n - 1);
      GiveFirst(node.row_ptr[..node.n], sib.row_ptr[..sib.n]);
      assert sib.row_ptr[..sib.n][0] == sib.row_ptr[0];
      assert node'.row_ptr[..node.n + 1] == node.row_ptr[..node.n] + [sib.row_ptr[0]];
      FinishBorrowLeaf(now, node, sib_addr, sib, p_addr, p, index, node', sib', now, node.n + 1, extra);
    }

    /** A round of the merge loop begins: child k+1 of page `now` is gone, and separator k, which
        is `rid`, has to go as well; `handler` tells whether its record does. */
    ghost predicate Falling(now: int, node: BPage, rid: RID, handler: bool, k: nat, extra: set<RID>)
      reads this, pool, pool.Repr, store, store.Repr
    {
      && Ready({now}, {}) && On(now, node) && g.nodes[now].lvl > 0 && NodeOk(g.nodes[now], store.recs)
      && k < |g.nodes[now].keys| && rid == g.nodes[now].keys[k] && rid !in extra
      && Core(Dropped(g, now, k), store.recs, -1, -1, if handler then extra + {rid} else extra)
      && Fill(Dropped(g, now, k).nodes, g.root, -1, now)
    }

    method FinishMergeLeaf(l: nat, lp: BPage, r: nat, rp: BPage, p_addr: nat, p: BPage, k: nat, lp': BPage,
                           ghost thin: int, ghost extra: set<RID>) returns (rid: RID)
      requires Pair(l, lp, r, rp, p_addr, p, k, thin, extra) && g.nodes[p_addr].lvl == 1
      requires |JoinedKeys(g, p_addr, k)| <= 2 * DEGREE - 2 && (lp.n >= DEGREE - 1 || rp.n >= DEGREE - 1)
      requires Proper(lp') && lp' == lp.(n := |JoinedKeys(g, p_addr, k)|, row_ptr := lp'.row_ptr)
        && lp'.row_ptr[..lp'.n] == JoinedKeys(g, p_addr, k)
      modifies this`g, this`free, pool.Repr
      ensures Falling(p_addr, p, rid, true, k, extra) && g.nodes[p_addr] == old(g).nodes[p_addr]
      ensures Extends(g, old(g))
      ensures Shed(old(g), old(free), |old(pool.view)|, g, free, |pool.view|)
      ensures Joined(old(g), p_addr, k, g)
    {
      hide BufferPool.Valid, PagesOk, RecordStore.Valid, Core, Fill, HalfMerged, Dropped, Mergeable, Merge, Joined;
      MergeLeafStep(g, store.recs, extra, p_addr, k, thin);
      ShownKey(g, p_addr, p, k);
      rid := p.row_ptr[k];
      MergeLeavesPages(pool.view, g, free, p_addr, k, lp', pool.view[l := lp'][r := rp.(n := 0)]);
      HalfMergedJoined(g, p_addr, k);
      HalfMergedExtends(g, p_addr, k);
      WriteMerged(l, lp', r, rp.(n := 0), p_addr, HalfMerged(g, p_addr, k));
    }

    /** Write both nodes of a merge, free the emptied one, and release the other. */
    method WriteMerged(l: nat, lp: BPage, r: nat, rp: BPage, p_addr: nat, ghost g': Tree)
      requires pool.Valid() && pool.pinned == {l, r, p_addr} && this !in pool.Repr
      requires l < |pool.view| && r < |pool.view| && p_addr < |pool.view| && l != r && p_addr != l && p_addr != r
      requires r in g.nodes && g'.nodes.Keys == g.nodes.Keys - {r}
      requires PagesOk(pool.view[l := lp][r := rp], g', free, {r}) && Proper(rp) && l in g'.nodes && p_addr in g'.nodes
      modifies this`g, this`free, pool.Repr
      ensures g == g' && Pages({p_addr}, {}) && p_addr < |pool.view| && pool.view[p_addr] == old(pool.view)[p_addr]
      ensures Shed(old(g), old(free), |old(pool.view)|, g, free, |pool.view|)
    {
      hide BufferPool.Valid, PagesOk;
      pool.Put(l, lp);
      pool.Put(r, rp);
      g := g';
      CtrlOf(pool.view, g, free, {r});
      ReleaseNode(r, {l, r, p_addr}, {r});
      assert {r} - {r} == {};
      pool.Release(l);
      assert {l, r, p_addr} - {r} - {l} == {p_addr};
    }

    /** Neither neighbour of the thin node has a key to spare. */
    ghost predicate NoSpare(p_addr: int, index: nat)
      reads this
    {
      && p_addr in g.nodes && index < |g.nodes[p_addr].kids|
      && (index > 0 ==>
            g.nodes[p_addr].kids[index - 1] in g.nodes && |g.nodes[g.nodes[p_addr].kids[index - 1]].keys| <= DEGREE - 1)
      && (index + 1 < |g.nodes[p_addr].kids| ==>
            g.nodes[p_addr].kids[index + 1] in g.nodes && |g.nodes[g.nodes[p_addr].kids[index + 1]].keys| <= DEGREE - 1)
    }

    /** Take the last entry of the leaf before the thin one, if it can spare one. */
    method BorrowFromLeft(now: nat, node: BPage, p_addr: nat, p: BPage, index: nat, ghost extra: set<RID>)
        returns (done: bool)
      requires Thin(now, node, p_addr, p, index, extra) && g.nodes[p_addr].lvl == 1 && index > 0
      modifies this`g, pool.Repr, store.Repr
      ensures Entries(store.recs) == old(Entries(store.recs)) && Extends(g, old(g))
      ensures g.nodes.Keys == old(g.nodes.Keys) && |pool.view| == |old(pool.view)|
      ensures done ==> Ready({}, {}) && WellFormed(g, store.recs, extra) && Evened(old(g), now, index, g)
      ensures !done ==>
        && g == old(g) && store.recs == old(store.recs) && Thin(now, node, p_addr, p, index, extra)
        && g.nodes[p_addr].kids[index - 1] in g.nodes && |g.nodes[g.nodes[p_addr].kids[index - 1]].keys| <= DEGREE - 1
    {
      hide BufferPool.Valid, PagesOk, RecordStore.Valid, Core, Fill, WellFormed, Entries, Mergeable, Extends,
        Shared, Evened;
      ghost var g0 := g;
      ExtendsSelf(g);
      KidParent(g, store.recs, extra, p_addr, index);
      var sib_addr, sib := PinSibling(now, node, p_addr, p, index, index - 1, extra);
      done := sib.n > DEGREE - 1;
      if done {
        BorrowLeftLeaf(now, node, sib_addr, sib, p_addr, p, index, extra);
        EvenedByLeft(g0, now, index, g);
      } else {
        pool.Release(sib_addr);
      }
    }

    /** Take the first entry of the leaf behind the thin one, if it can spare one. */
    method BorrowFromRight(now: nat, node: BPage, p_addr: nat, p: BPage, index: nat, ghost extra: set<RID>)
        returns (done: bool)
      requires Thin(now, node, p_addr, p, index, extra) && g.nodes[p_addr].lvl == 1 && index < p.n
      requires index > 0 ==> |KeysOf(g, g.nodes[p_addr].kids[index - 1])| <= DEGREE - 1
      modifies this`g, pool.Repr, store.Repr
      ensures Entries(store.recs) == old(Entries(store.recs)) && Extends(g, old(g))
      ensures g.nodes.Keys == old(g.nodes.Keys) && |pool.view| == |old(pool.view)|
      ensures done ==> Ready({}, {}) && WellFormed(g, store.recs, extra) && Evened(old(g), now, index, g)
      ensures !done ==>
        && g == old(g) && store.recs == old(store.recs) && Thin(now, node, p_addr, p, index, extra)
        && g.nodes[p_addr].kids[index + 1] in g.nodes && |g.nodes[g.nodes[p_addr].kids[index + 1]].keys| <= DEGREE - 1
    {
      hide BufferPool.Valid, PagesOk, RecordStore.Valid, Core, Fill, WellFormed, Entries, Mergeable, Extends,
        Shared, Evened;
      ghost var g0 := g;
      ExtendsSelf(g);
      KidParent(g, store.recs, extra, p_addr, index);
      var sib_addr, sib := PinSibling(now, node, p_addr, p, index, index + 1, extra);
      done := sib.n > DEGREE - 1;
      if done {
        BorrowRightLeaf(now, node, sib_addr, sib, p_addr, p, index, extra);
        EvenedByRight(g0, now, index, g);
      } else {
        pool.Release(sib_addr);
      }
    }

    method BorrowLeaf(now: nat, node: BPage, p_addr: nat, p: BPage, index: nat, ghost extra: set<RID>)
        returns (done: bool)
      requires Thin(now, node, p_addr, p, index, extra) && g.nodes[p_addr].lvl == 1
      modifies this`g, pool.Repr, store.Repr
      ensures Entries(store.recs) == old(Entries(store.recs)) && Extends(g, old(g))
      ensures g.nodes.Keys == old(g.nodes.Keys) && |pool.view| == |old(pool.view)|
      ensures done ==> Ready({}, {}) && WellFormed(g, store.recs, extra) && Evened(old(g), now, index, g)
      ensures !done ==>
        && g == old(g) && store.recs == old(store.recs)
        && Thin(now, node, p_addr, p, index, extra) && NoSpare(p_addr, index)
    {
      hide BufferPool.Valid, PagesOk, RecordStore.Valid, Core, Fill, WellFormed, Entries, Extends, Evened;
      ExtendsSelf(g);
      done := false;
      if index > 0 {
        done := BorrowFromLeft(now, node, p_addr, p, index, extra);
        if done {
          return;
        }
      }
      if index < p.n {
        done := BorrowFromRight(now, node, p_addr, p, index, extra);
      }
    }

    method MergeLeaf(now: nat, node: BPage, p_addr: nat, p: BPage, index: nat, ghost extra: set<RID>)
        returns (rid: RID, ghost k: nat)
      requires Thin(now, node, p_addr, p, index, extra) && g.nodes[p_addr].lvl == 1 && NoSpare(p_addr, index)
      modifies this`g, this`free, pool.Repr
      ensures Falling(p_addr, p, rid, true, k, extra)
      ensures Extends(g, old(g))
      ensures Shed(old(g), old(free), |old(pool.view)|, g, free, |pool.view|)
      ensures Evened(old(g), now, index, g)
    {
      hide BufferPool.Valid, PagesOk, RecordStore.Valid, Core, Fill, Mergeable, Joined, Evened;
      ghost var g0 := g;
      KidParent(g, store.recs, extra, p_addr, index);
      if index > 0 {
        k := index - 1;
        var sib_addr, sib := PinSibling(now, node, p_addr, p, index, index - 1, extra);
        var row := CopyBehind(sib.row_ptr, sib.n, node.row_ptr, node.n);
        rid := FinishMergeLeaf(sib_addr, sib, now, node, p_addr, p, index - 1,
          sib.(row_ptr := row, n := sib.n + node.n), now, extra);
      } else {
        k := index;
        var sib_addr, sib := PinSibling(now, node, p_addr, p, index, index + 1, extra);
        var row := CopyBehind(node.row_ptr, node.n, sib.row_ptr, sib.n);
        rid := FinishMergeLeaf(now, node, sib_addr, sib, p_addr, p, index, node.(row_ptr := row, n := node.n + sib.n),
          now, extra);
      }
      EvenedByJoin(g0, now, index, g);
    }

    /** Page `now` is pinned and may be thin. */
    ghost predicate MaybeThin(now: int, node: BPage, extra: set<RID>)
      reads this, pool, pool.Repr, store, store.Repr
    {
      && Ready({now}, {}) && On(now, node)
      && Core(g, store.recs, -1, -1, extra) && Fill(g.nodes, g.root, -1, now)
    }

    /** The first lines of the merge loop: the separator and the child behind it leave the node. */
    method DropSeparator(now: nat, node: BPage, rid: RID, handler: bool, ghost k: nat, ghost extra: set<RID>)
        returns (node': BPage)
      requires Falling(now, node, rid, handler, k, extra)
      modifies this`g, pool.Repr, store.Repr
      ensures MaybeThin(now, node', extra) && Entries(store.recs) == old(Entries(store.recs))
      ensures Extends(g, old(g))
      ensures g.nodes[now].lvl > 0
      ensures g.nodes.Keys == old(g.nodes.Keys) && |pool.view| == |old(pool.view)|
      ensures Leaves(g) == Leaves(old(g))
    {
      hide BufferPool.Valid, PagesOk, RecordStore.Valid, Core, Fill, Entries, Dropped, Leaves;
      var i := FindSeparator(now, node, rid, k);
      DroppedFacts(g, now, k);
      ShownKey(g, now, node, k);
      if handler {
        ForgetSeparator(Dropped(g, now, k), store.recs, extra, rid);
        store.DeleteHandler(node.row_ptr[i]);
        SameEntries(old(store.recs), rid);
      }
      DroppedLeaves(g, now, k);
      DroppedExtends(g, now, k);
      node' := WriteDropped(now, node, i);
    }

    method FindSeparator(now: nat, node: BPage, rid: RID, ghost k: nat) returns (i: nat)
      requires Ready({now}, {}) && On(now, node) && g.nodes[now].lvl > 0 && NodeOk(g.nodes[now], store.recs)
      requires k < |g.nodes[now].keys| && rid == g.nodes[now].keys[k]
      modifies store.Repr
      ensures Ready({now}, {}) && store.recs == old(store.recs) && i == k
      ensures rid in store.recs && store.recs[rid].value.None?
    {
      hide BufferPool.Valid, PagesOk, RecordStore.Valid;
      assert rid in g.nodes[now].keys;
      i := LowerBoundRecord(node.row_ptr, node.n, rid);
      SearchedSeparator(g.nodes[now], store.recs, i, k);
    }

    method WriteDropped(now: nat, node: BPage, i: nat) returns (node': BPage)
      requires Pages({now}, {}) && On(now, node) && g.nodes[now].lvl > 0 && i < node.n
        && |g.nodes[now].kids| == |g.nodes[now].keys| + 1
      modifies this`g, pool.Repr
      ensures Pages({now}, {}) && g == Dropped(old(g), now, i) && On(now, node')
      ensures |pool.view| == |old(pool.view)|
    {
      hide BufferPool.Valid, PagesOk, Dropped;
      var row := ShiftDelete(node.row_ptr, node.n, i);
      var child := ShiftDelete(node.child, node.n + 1, i + 1);
      node' := node.(row_ptr := row, child := child, n := node.n - 1);
      DroppedPages(pool.view, g, free, now, i, node');
      DroppedFacts(g, now, i);
      pool.Put(now, node');
      g := Dropped(g, now, i);
    }

    /** The root lost its last key: its only child becomes the root. */
    method CollapseRoot(now: nat, node: BPage, ghost extra: set<RID>)
      requires MaybeThin(now, node, extra) && now == g.root && g.nodes[now].lvl > 0 && node.n == 0
      modifies this`g, this`free, pool.Repr
      ensures Ready({}, {}) && WellFormed(g, store.recs, extra)
      ensures Grows(g, old(g))
      ensures Shed(old(g), old(free), |old(pool.view)|, g, free, |pool.view|)
      ensures Leaves(g) == Leaves(old(g))
    {
      hide BufferPool.Valid, PagesOk, RecordStore.Valid, Core, Fill, Collapse, Uprooted, Leaves;
      CollapseShrinks(g, store.recs, extra);
      CollapseLeaves(g);
      CollapseOk(g, store.recs, extra);
      CoreRoot(g, store.recs, extra);
      CollapseFill(g);
      assert node.child[..node.n + 1][0] == node.child[0];
      NodePage(pool.view, g, free, {}, node.child[0]);
      Uproot(now, node, node.child[0]);
    }

    method Uproot(now: nat, node: BPage, pre: nat)
      requires Pages({now}, {}) && now == g.root && now in g.nodes && |g.nodes[now].kids| > 0
        && pre == g.nodes[now].kids[0]
      requires pre in g.nodes && pre != now && On(now, node) && node.child[0] == pre
      modifies this`g, this`free, pool.Repr
      ensures Pages({}, {}) && g == Collapse(old(g))
      ensures Shed(old(g), old(free), |old(pool.view)|, g, free, |pool.view|)
    {
      hide BufferPool.Valid, PagesOk, Collapse, Uprooted;
      UprootedKeys(g);
      ghost var before := g;
      MoveRoot(now, node);
      UprootedFacts(before);
      NodePage(pool.view, g, free, {}, pre);
      CollapsedPages(pool.view, before, free, pre);
      var root := Pin(pre);
      pool.Put(pre, root.(parent := -1));
      pool.Release(pre);
      g := Collapse(before);
    }

    method MoveRoot(now: nat, node: BPage)
      requires Pages({now}, {}) && now == g.root && now in g.nodes && |g.nodes[now].kids| > 0
      requires On(now, node) && node.child[0] == g.nodes[now].kids[0]
      modifies this`g, this`free, pool.Repr
      ensures Pages({}, {}) && g == Uprooted(old(g))
      ensures Shed(old(g), old(free), |old(pool.view)|, g, free, |pool.view|)
    {
      hide BufferPool.Valid, PagesOk, Uprooted, Shed;
      ghost var before, free0, len0 := g, free, |pool.view|;
      UprootedKeys(g);
      CtrlOf(pool.view, g, free, {});
      UprootedPages(pool.view, g, free);
      var ctr := Pin(0);
      pool.Put(0, ctr.(root_node := node.child[0]));
      pool.Release(0);
      g := Uprooted(g);
      CtrlOf(pool.view, g, free, {now});
      ReleaseNode(now, {now}, {now});
      ShedOne(before, free0, len0, now, g, free, |pool.view|);
      assert {now} - {now} == {};
    }

    /** Both borrows between inner nodes end alike: keys and children are dealt out anew, the
        key in between becomes the separator, and `son` learns that it moved. */
    method FinishBorrowInner(l: nat, lp: BPage, r: nat, rp: BPage, p_addr: nat, p: BPage, k: nat, lp': BPage,
        rp': BPage, x: RID,
                             son: nat, home: int, ghost thin: int, ghost n: nat, ghost extra: set<RID>)
      requires Pair(l, lp, r, rp, p_addr, p, k, thin, extra) && g.nodes[p_addr].lvl > 1
      requires |InnerKids(g, p_addr, k)| == |InnerKeys(g, p_addr, k)| + 1
      requires DEGREE - 1 <= n <= 2 * DEGREE - 1 && DEGREE - 1 <= |InnerKeys(g, p_addr, k)| - n - 1 <= 2 * DEGREE - 1
      requires Proper(lp') && lp' == lp.(n := n, row_ptr := lp'.row_ptr, child := lp'.child)
      requires lp'.row_ptr[..n] == InnerKeys(g, p_addr, k)[..n]
        && lp'.child[..n + 1] == InnerKids(g, p_addr, k)[..n + 1]
      requires Proper(rp') && rp' ==
        rp.(n := |InnerKeys(g, p_addr, k)| - n - 1, row_ptr := rp'.row_ptr, child := rp'.child)
      requires rp'.row_ptr[..rp'.n] == InnerKeys(g, p_addr, k)[n + 1..]
        && rp'.child[..rp'.n + 1] == InnerKids(g, p_addr, k)[n + 1..]
      requires x == InnerKeys(g, p_addr, k)[n]
      requires (home == r && son in g.nodes[l].kids && forall c :: c in InnerKids(g, p_addr, k)[n + 1..] <==>
        c in g.nodes[r].kids || c == son)
            || (home == l && son in g.nodes[r].kids && forall c :: c in InnerKids(g, p_addr, k)[n + 1..] <==>
              c in g.nodes[r].kids && c != son)
      modifies this`g, pool.Repr
      ensures Ready({}, {}) && WellFormed(g, store.recs, extra)
      ensures Extends(g, old(g))
      ensures g.nodes.Keys == old(g.nodes.Keys) && |pool.view| == |old(pool.view)|
      ensures Leaves(g) == Leaves(old(g))
    {
      hide BufferPool.Valid, PagesOk, RecordStore.Valid, Core, Fill, RecutInner, InnerRecut, InnerKeys, InnerKids,
        Extends, Leaves;
      Neighbours(g, store.recs, extra, p_addr, k);
      InnerPair(g, store.recs, extra, p_addr, k);
      CoreRoot(g, store.recs, extra);
      RecutInnerOk(g, store.recs, extra, p_addr, k, n);
      ghost var g' := RecutInner(g, store.recs, p_addr, k, n);
      RecutInnerFill(g, store.recs, p_addr, k, n, g', thin);
      NodePage(pool.view, g, free, {}, son);
      ShownKey(g, p_addr, p, k);
      var p' := p.(row_ptr := p.row_ptr[k := x]);
      RecutInnerPages(pool.view, g, free, store.recs, p_addr, k, n, g', lp', rp', p', son, home);
      WriteFour(l, lp', r, rp', p_addr, p', son, home);
      InnerRecutLeaves(g, store.recs, p_addr, k, n, g');
      InnerRecutExtends(g, store.recs, p_addr, k, n, g');
      g := g';
    }

    method WriteFour(l: nat, lp: BPage, r: nat, rp: BPage, p_addr: nat, p: BPage, son: nat, home: int)
      requires pool.Valid() && pool.pinned == {l, r, p_addr}
      requires l < |pool.view| && r < |pool.view| && p_addr < |pool.view| && son < |pool.view| && pool.view[son].BNode?
      requires son != l && son != r && son != p_addr
      modifies pool.Repr
      ensures pool.Valid() && pool.pinned == {}
      ensures pool.view == old(pool.view)[l := lp][r := rp][p_addr := p][son := old(pool.view)[son].(parent := home)]
    {
      hide BufferPool.Valid;
      pool.Put(l, lp);
      pool.Put(r, rp);
      pool.Put(p_addr, p);
      var node := Pin(son);
      pool.Put(son, node.(parent := home));
      pool.Release(son);
      pool.Release(l);
      pool.Release(r);
      pool.Release(p_addr);
    }

    method BorrowLeftInner(now: nat, node: BPage, sib_addr: nat, sib: BPage, p_addr: nat, p: BPage, index: nat,
        ghost extra: set<RID>)
      requires index > 0 && Pair(sib_addr, sib, now, node, p_addr, p, index - 1, now, extra)
      requires g.nodes[p_addr].lvl > 1 && sib.n > DEGREE - 1 && node.n < DEGREE - 1 && now != g.root
      modifies this`g, pool.Repr
      ensures Ready({}, {}) && WellFormed(g, store.recs, extra)
      ensures Extends(g, old(g))
      ensures g.nodes.Keys == old(g.nodes.Keys) && |pool.view| == |old(pool.view)|
      ensures Leaves(g) == Leaves(old(g))
    {
      hide BufferPool.Valid, PagesOk, RecordStore.Valid, Core, Inserted, InnerKids, Leaves;
      InnerPair(g, store.recs, extra, p_addr, index - 1);
      LeftRows(g, p_addr, index - 1);
      ShownKey(g, p_addr, p, index - 1);
      ShownKey(g, sib_addr, sib, sib.n - 1);
      ShownKid(g, sib_addr, sib, sib.n);
      ShownLess(g, sib_addr, sib);
      KidPageOk(g, free, pool.view, sib.child[sib.n]);
      var row := ShiftInsert(node.row_ptr, node.n, 0, p.row_ptr[index - 1]);
      var child := ShiftInsert(node.child, node.n + 1, 0, sib.child[sib.n]);
      var node' := node.(row_ptr := row, child := child, n := node.n + 1);
      FinishBorrowInner(sib_addr, sib, now, node, p_addr, p, index - 1, sib.(n := sib.n - 1), node',
        sib.row_ptr[sib.n - 1],
                        sib.child[sib.n], now, now, sib.n - 1, extra);
    }

    /** One more key and child behind those of an inner node. */
    method AppendKey(node: BPage, key: RID, kid: int) returns (node': BPage)
      requires Proper(node) && node.n < 2 * DEGREE - 1
      ensures Proper(node') && node' == node.(n := node.n + 1, row_ptr := node'.row_ptr, child := node'.child)
      ensures node'.row_ptr[..node.n + 1] == node.row_ptr[..node.n] + [key]
      ensures node'.child[..node.n + 2] == node.child[..node.n + 1] + [kid]
    {
      var row, child := node.row_ptr[node.n := key], node.child[node.n + 1 := kid];
      node' := node.(row_ptr := row, child := child, n := node.n + 1);
    }

    method BorrowRightInner(now: nat, node: BPage, sib_addr: nat, sib: BPage, p_addr: nat, p: BPage, index: nat,
        ghost extra: set<RID>)
      requires Pair(now, node, sib_addr, sib, p_addr, p, index, now, extra)
      requires g.nodes[p_addr].lvl > 1 && sib.n > DEGREE - 1 && node.n < DEGREE - 1 && now != g.root
      modifies this`g, pool.Repr
      ensures Ready({}, {}) && WellFormed(g, store.recs, extra)
      ensures Extends(g, old(g))
      ensures g.nodes.Keys == old(g.nodes.Keys) && |pool.view| == |old(pool.view)|
      ensures Leaves(g) == Leaves(old(g))
    {
      hide BufferPool.Valid, PagesOk, RecordStore.Valid, Core, Removed, InnerKids, Leaves;
      InnerPair(g, store.recs, extra, p_addr, index);
      RightRows(g, p_addr, index);
      ShownKey(g, p_addr, p, index);
      ShownKey(g, sib_addr, sib, 0);
      ShownKid(g, sib_addr, sib, 0);
      KidPageOk(g, free, pool.view, sib.child[0]);
      var node' := AppendKey(node, p.row_ptr[index], sib.child[0]);
      var row := ShiftDelete(sib.row_ptr, sib.n, 0);
      var child := ShiftDelete(sib.child, sib.n + 1, 0);
      var sib' := sib.(row_ptr := row, child := child, n := sib.n - 1);
      FinishBorrowInner(now, node, sib_addr, sib, p_addr, p, index, node', sib', sib.row_ptr[0], sib.child[0], now,
        now, node.n + 1, extra);
    }

    method BorrowInner(now: nat, node: BPage, p_addr: nat, p: BPage, index: nat, ghost extra: set<RID>)
        returns (done: bool)
      requires Thin(now, node, p_addr, p, index, extra) && g.nodes[p_addr].lvl > 1
      modifies this`g, pool.Repr
      ensures done ==> Ready({}, {}) && WellFormed(g, store.recs, extra)
      ensures !done ==> g == old(g) && Thin(now, node, p_addr, p, index, extra) && NoSpare(p_addr, index)
      ensures Extends(g, old(g))
      ensures g.nodes.Keys == old(g.nodes.Keys) && |pool.view| == |old(pool.view)|
      ensures Leaves(g) == Leaves(old(g))
    {
      hide BufferPool.Valid, PagesOk, RecordStore.Valid, Core, Fill, WellFormed, Mergeable, Extends, Leaves;
      ExtendsSelf(g);
      var sib_addr: nat, sib := 0, node;
      if index > 0 {
        sib_addr, sib := PinSibling(now, node, p_addr, p, index, index - 1, extra);
        if sib.n > DEGREE - 1 {
          BorrowLeftInner(now, node, sib_addr, sib, p_addr, p, index, extra);
          return true;
        }
        pool.Release(sib_addr);
      }
      if index < p.n {
        sib_addr, sib := PinSibling(now, node, p_addr, p, index, index + 1, extra);
        if sib.n > DEGREE - 1 {
          BorrowRightInner(now, node, sib_addr, sib, p_addr, p, index, extra);
          return true;
        }
      }
      pool.Release(sib_addr);
      done := false;
    }

    method FinishMergeInner(l: nat, lp: BPage, r: nat, rp: BPage, p_addr: nat, p: BPage, k: nat, lp': BPage,
                            ghost thin: int, ghost extra: set<RID>) returns (rid: RID)
      requires Pair(l, lp, r, rp, p_addr, p, k, thin, extra) && g.nodes[p_addr].lvl > 1
      requires lp.n + rp.n <= 2 * DEGREE - 2 && (lp.n >= DEGREE - 1 || rp.n >= DEGREE - 1)
      requires Proper(lp') && lp' == lp.(n := lp.n + rp.n + 1, row_ptr := lp'.row_ptr, child := lp'.child)
      requires lp'.row_ptr[..lp'.n] == InnerKeys(g, p_addr, k) && lp'.child[..lp'.n + 1] == InnerKids(g, p_addr, k)
      modifies this`g, this`free, pool.Repr
      ensures Falling(p_addr, p, rid, false, k, extra)
      ensures Extends(g, old(g))
      ensures Shed(old(g), old(free), |old(pool.view)|, g, free, |pool.view|)
      ensures Leaves(g) == Leaves(old(g))
    {
      hide BufferPool.Valid, PagesOk, RecordStore.Valid, Core, Fill, HalfMerged, Dropped, Adopted, InnerKids, Leaves;
      InnerPair(g, store.recs, extra, p_addr, k);
      MergeInnerStep(g, store.recs, extra, p_addr, k, thin);
      ShownKey(g, p_addr, p, k);
      KidPages(pool.view, g, free, {}, g.nodes[r].kids);
      rid := p.row_ptr[k];
      ghost var view := pool.view;
      assert forall j :: 0 <= j < rp.n + 1 ==> rp.child[j] == rp.child[..rp.n + 1][j];
      AdoptKids(rp.child, rp.n + 1, l);
      AdoptedFacts(view, g.nodes[r].kids, l);
      MergeInnerPages(view, g, free, p_addr, k, lp', pool.view[l := lp'][r := rp.(n := 0)]);
      InnerMergedLeaves(g, p_addr, k);
      HalfMergedExtends(g, p_addr, k);
      WriteMerged(l, lp', r, rp.(n := 0), p_addr, HalfMerged(g, p_addr, k));
    }

    method MergeInner(now: nat, node: BPage, p_addr: nat, p: BPage, index: nat, ghost extra: set<RID>)
        returns (rid: RID, ghost k: nat)
      requires Thin(now, node, p_addr, p, index, extra) && g.nodes[p_addr].lvl > 1 && NoSpare(p_addr, index)
      modifies this`g, this`free, pool.Repr
      ensures Falling(p_addr, p, rid, false, k, extra)
      ensures Extends(g, old(g))
      ensures Shed(old(g), old(free), |old(pool.view)|, g, free, |pool.view|)
      ensures Leaves(g) == Leaves(old(g))
    {
      hide BufferPool.Valid, PagesOk, RecordStore.Valid, Core, Fill, Leaves;
      if index > 0 {
        k := index - 1;
        var sib_addr, sib := PinSibling(now, node, p_addr, p, index, index - 1, extra);
        var sib' := JoinPages(sib_addr, sib, now, node, p_addr, p, index - 1, now, extra);
        rid := FinishMergeInner(sib_addr, sib, now, node, p_addr, p, index - 1, sib', now, extra);
      } else {
        k := index;
        var sib_addr, sib := PinSibling(now, node, p_addr, p, index, index + 1, extra);
        var node' := JoinPages(now, node, sib_addr, sib, p_addr, p, index, now, extra);
        rid := FinishMergeInner(now, node, sib_addr, sib, p_addr, p, index, node', now, extra);
      }
    }

    /** The rows of the left page of an inner merge. */
    method JoinPages(l: nat, lp: BPage, r: nat, rp: BPage, p_addr: nat, p: BPage, k: nat, ghost thin: int,
        ghost extra: set<RID>) returns (lp': BPage)
      requires Pair(l, lp, r, rp, p_addr, p, k, thin, extra) && g.nodes[p_addr].lvl > 1 && lp.n + rp.n <= 2 * DEGREE - 2
      ensures Proper(lp') && lp' == lp.(n := lp.n + rp.n + 1, row_ptr := lp'.row_ptr, child := lp'.child)
      ensures lp'.row_ptr[..lp'.n] == InnerKeys(g, p_addr, k) && lp'.child[..lp'.n + 1] == InnerKids(g, p_addr, k)
    {
      hide BufferPool.Valid, PagesOk, RecordStore.Valid, Core, Fill;
      InnerPair(g, store.recs, extra, p_addr, k);
      ShownKey(g, p_addr, p, k);
      var row := lp.row_ptr[lp.n := p.row_ptr[k]];
      assert row[..lp.n + 1] == lp.row_ptr[..lp.n] + [p.row_ptr[k]];
      row := CopyBehind(row, lp.n + 1, rp.row_ptr, rp.n);
      var child := CopyBehind(lp.child, lp.n + 1, rp.child, rp.n + 1);
      lp' := lp.(n := lp.n + rp.n + 1, row_ptr := row, child := child);
    }

    /** Pin the parent of a thin node that is not the root. */
    method PinParent(now: nat, node: BPage, ghost extra: set<RID>) returns (p_addr: nat, p: BPage, index: nat)
      requires MaybeThin(now, node, extra) && node.parent >= 0 && node.n < DEGREE - 1
      modifies pool.Repr
      ensures Thin(now, node, p_addr, p, index, extra)
      ensures pool.view == old(pool.view)
    {
      hide BufferPool.Valid, PagesOk, RecordStore.Valid, Core, Fill;
      ThinParent(g, store.recs, extra, now);
      CoreRoot(g, store.recs, extra);
      ThinHasSibling(g, now);
      p_addr := node.parent;
      NodePage(pool.view, g, free, {}, p_addr);
      p := Pin(p_addr);
      index := FindIndex(p, now);
      assert p.child[..p.n + 1][index] == p.child[index];
    }

    /** The node is not thin after all, or is the root. */
    method Settle(now: nat, node: BPage, ghost extra: set<RID>)
      requires MaybeThin(now, node, extra)
      requires if node.parent >= 0 then node.n >= DEGREE - 1 else node.leaf || node.n > 0
      modifies pool.Repr
      ensures Ready({}, {}) && WellFormed(g, store.recs, extra)
      ensures pool.view == old(pool.view)
    {
      hide BufferPool.Valid, PagesOk, RecordStore.Valid, Core, Fill;
      ThinParent(g, store.recs, extra, now);
      CoreRoot(g, store.recs, extra);
      SettleFill(g.nodes, g.root, now);
      pool.Release(now);
    }

    /** One round of the merge loop. */
    method FallToParent(now: nat, node: BPage, rid: RID, handler: bool, ghost k: nat, ghost extra: set<RID>)
        returns (done: bool, now': nat, node': BPage, rid': RID, ghost k': nat)
      requires Falling(now, node, rid, handler, k, extra)
      modifies this`g, this`free, pool.Repr, store.Repr
      ensures Entries(store.recs) == old(Entries(store.recs))
      ensures done ==> Ready({}, {}) && WellFormed(g, store.recs, extra)
      ensures !done ==> Falling(now', node', rid', false, k', extra) && g.nodes[now'].lvl > old(g).nodes[now].lvl
      ensures !done ==> Extends(g, old(g))
      ensures Grows(g, old(g))
      ensures Shed(old(g), old(free), |old(pool.view)|, g, free, |pool.view|)
      ensures Leaves(g) == Leaves(old(g))
    {
      hide BufferPool.Valid, PagesOk, RecordStore.Valid, Core, Fill, WellFormed, Entries, Dropped, Extends, Grows,
        Leaves;
      ghost var g0 := g;
      var node := DropSeparator(now, node, rid, handler, k, extra);
      ghost var g1 := g;
      ExtendsSelf(g1);
      ExtendsOn(g1, g1, g0);
      now', node', rid', k', done := now, node, rid, k, true;
      if node.parent >= 0 {
        if node.n < DEGREE - 1 {
          var p_addr, p, index := PinParent(now, node, extra);
          done := BorrowInner(now, node, p_addr, p, index, extra);
          if !done {
            rid', k' := MergeInner(now, node, p_addr, p, index, extra);
            now', node' := p_addr, p;
          }
          ExtendsOn(g, g1, g0);
        } else {
          Settle(now, node, extra);
        }
      } else {
        FinishFall(now, node, extra);
        Shorter(g0, g1, g);
      }
    }

    method FinishFall(now: nat, node: BPage, ghost extra: set<RID>)
      requires MaybeThin(now, node, extra) && node.parent < 0 && g.nodes[now].lvl > 0
      modifies this`g, this`free, pool.Repr
      ensures Ready({}, {}) && WellFormed(g, store.recs, extra)
      ensures Grows(g, old(g))
      ensures Shed(old(g), old(free), |old(pool.view)|, g, free, |pool.view|)
      ensures Leaves(g) == Leaves(old(g))
    {
      hide BufferPool.Valid, PagesOk, RecordStore.Valid, Core, Fill, WellFormed, Grows, Extends, Leaves;
      ExtendsSelf(g);
      ThinParent(g, store.recs, extra, now);
      if node.n == 0 {
        CollapseRoot(now, node, extra);
      } else {
        Settle(now, node, extra);
      }
    }

    /** The merge loop. */
    method FallToRoot(now: nat, node: BPage, rid: RID, ghost k: nat, ghost extra: set<RID>)
      requires Falling(now, node, rid, true, k, extra)
      modifies this`g, this`free, pool.Repr, store.Repr
      ensures Ready({}, {}) && WellFormed(g, store.recs, extra)
      ensures Entries(store.recs) == old(Entries(store.recs))
      ensures Grows(g, old(g))
      ensures Shed(old(g), old(free), |old(pool.view)|, g, free, |pool.view|)
      ensures Leaves(g) == Leaves(old(g))
    {
      hide PagesOk, BufferPool.Valid, RecordStore.Valid, Core, Fill, WellFormed, Entries, Dropped, Extends, Grows, Shed,
        Leaves;
      ghost var top := MaxLevel(g.nodes, g.nodes.Keys);
      ExtendsSelf(g);
      ShedNone(g, free, |pool.view|, g);
      var now, node, rid, handler, done := now, node, rid, true, false;
      ghost var k := k;
      while true
        invariant Falling(now, node, rid, handler, k, extra)
        invariant Leaves(g) == Leaves(old(g))
        invariant Extends(g, old(g)) && Shed(old(g), old(free), |old(pool.view)|, g, free, |pool.view|)
        invariant Entries(store.recs) == old(Entries(store.recs))
        invariant forall c :: c in g.nodes ==> g.nodes[c].lvl <= top
        decreases top - g.nodes[now].lvl
      {
        ghost var before, free1, len1 := g, free, |pool.view|;
        done, now, node, rid, k := FallToParent(now, node, rid, handler, k, extra);
        Shorter(old(g), before, g);
        ShedMore(old(g), before, g, old(free), |old(pool.view)|, free1, len1, free, |pool.view|);
        if done {
          return;
        }
        ExtendsOn(g, before, old(g));
        TopKept(before, g, top);
        handler := false;
      }
    }

    /** The leaf has too few keys: borrow or merge, and carry the merges upwards. */
    method Rebalance(now: nat, node: BPage, ghost extra: set<RID>)
      requires MaybeThin(now, node, extra) && g.nodes[now].lvl == 0 && node.parent >= 0 && node.n < DEGREE - 1
      modifies this`g, this`free, pool.Repr, store.Repr
      ensures Ready({}, {}) && WellFormed(g, store.recs, extra)
      ensures Entries(store.recs) == old(Entries(store.recs))
      ensures Grows(g, old(g))
      ensures Shed(old(g), old(free), |old(pool.view)|, g, free, |pool.view|)
      ensures exists index :: Evened(old(g), now, index, g)
    {
      hide PagesOk, BufferPool.Valid, RecordStore.Valid, Core, Fill, WellFormed, Entries, Dropped, Extends, Grows, Shed,
        Leaves, Evened;
      ghost var g0, free0, len0 := g, free, |pool.view|;
      ExtendsSelf(g0);
      var p_addr, p, index := PinParent(now, node, extra);
      var done := BorrowLeaf(now, node, p_addr, p, index, extra);
      if done {
        ShedNone(g0, free0, len0, g);
        ExtendsOn(g, g0, g0);
      } else {
        ghost var k;
        var rid;
        rid, k := MergeLeaf(now, node, p_addr, p, index, extra);
        ghost var g1, free1, len1 := g, free, |pool.view|;
        FallToRoot(p_addr, p, rid, k, extra);
        ExtendsOn(g1, g0, g0);
        Shorter(g0, g1, g);
        EvenedLater(g0, now, index, g1, g);
        ShedMore(g0, g1, g, free0, len0, free1, len1, free, |pool.view|);
      }
    }

    /** b_tree_delete of the entry whose key is that of `rid`.  The entry itself, `gone`, stays a
        live record, which the tree no longer references. */
    method Delete(rid: RID, ghost extra: set<RID>) returns (ghost gone: RID, ghost leaf: int, ghost i: nat)
      requires Ready({}, {}) && WellFormed(g, store.recs, extra) && rid in store.recs
      requires exists r ::
        r in store.recs && r !in extra && store.recs[r].value.Some? && store.recs[r].rank == store.recs[rid].rank
      modifies this`g, this`free, pool.Repr, store.Repr
      ensures Ready({}, {}) && Entries(store.recs) == old(Entries(store.recs))
      ensures gone in old(store.recs) && gone !in extra && old(store.recs)[gone].value.Some?
      ensures old(store.recs)[gone].rank == old(store.recs)[rid].rank
      ensures WellFormed(g, store.recs, extra + {gone})
      ensures Grows(g, old(g))
      ensures Shed(old(g), old(free), |old(pool.view)|, g, free, |pool.view|)
      ensures Departed(old(g), gone, leaf, i, g)
      ensures leaf in old(g).nodes && old(g).nodes[leaf].lo <= Rk(old(store.recs), rid) < old(g).nodes[leaf].hi
    {
      hide BufferPool.Valid, PagesOk, RecordStore.Valid, Core, Fill, Entries, RemoveKey, Evened;
      var now, node, at, hit := FindLeaf(rid, extra);
      leaf, i := now, at;
      gone := FoundEntry(g, store.recs, extra, now, rid, at);
      RemoveKeyOk(g, store.recs, extra, now, at);
      CoreRoot(g, store.recs, extra);
      RemovedKeyFill(g, now, at);
      ghost var before := g;
      node := RemoveFromLeaf(now, node, at);
      ghost var without := g;
      RemovedLevel(before, now, at);
      ThinParent(g, store.recs, extra + {gone}, now);
      if node.parent >= 0 && node.n < DEGREE - 1 {
        Rebalance(now, node, extra + {gone});
      } else {
        Settle(now, node, extra + {gone});
      }
      Shorter(before, without, g);
    }
  }
}
