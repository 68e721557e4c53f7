/** The key-value store (src/myjql.c) on top of the tree, the records and the strings. */
module MyJqls {
  import opened Common
  import opened KeyOrder
  import opened BufferPools
  import opened BTreeModel
  import opened BTreePages
  import opened BTreeSearch
  import opened BTreeSteps
  import opened BTreeDeletion
  import opened Strings
  import opened StringTables
  import opened RecordStores
  import opened BTrees

  type Contents = map<String, String>

  /** The records with values are the pairs of the map, each key having one record. */
  ghost predicate Abstracts(recs: Records, at: map<String, RID>, contents: Contents) {
    && at.Keys == contents.Keys
    && (forall k :: k in at ==> at[k] in recs && recs[at[k]].key == k && recs[at[k]].value == Some(contents[k]))
    && (forall r :: r in recs && recs[r].value.Some? ==> recs[r].key in at && at[recs[r].key] == r)
  }

  /** Separators come and go unseen. */
  lemma AbstractsEntries(recs: Records, recs': Records, at: map<String, RID>, contents: Contents)
    requires Abstracts(recs, at, contents) && Entries(recs') == Entries(recs)
    ensures Abstracts(recs', at, contents)
  {
    assert forall r :: r in Entries(recs) <==> r in recs && recs[r].value.Some?;
    assert forall r :: r in Entries(recs') <==> r in recs' && recs'[r].value.Some?;
    forall k | k in at ensures at[k] in recs' && recs'[at[k]].key == k && recs'[at[k]].value == Some(contents[k]) {
      assert at[k] in Entries(recs);
    }
    forall r | r in recs' && recs'[r].value.Some? ensures recs'[r].key in at && at[recs'[r].key] == r {
      assert r in Entries(recs');
    }
  }

  lemma AbstractsSet(recs: Records, at: map<String, RID>, contents: Contents, r: RID, key: String, value: String,
      e: Entry)
    requires Abstracts(recs, at, contents) && r !in recs && key !in contents && e.key == key && e.value == Some(value)
    ensures Abstracts(recs[r := e], at[key := r], contents[key := value])
  {
  }

  lemma AbstractsDel(recs: Records, at: map<String, RID>, contents: Contents, key: String)
    requires Abstracts(recs, at, contents) && key in contents
    ensures Abstracts(recs - {at[key]}, at - {key}, contents - {key})
  {
  }

  /** The tree does not notice a change of records that it does not reference. */
  lemma TreeKept(g: Tree, recs: Records, extra: set<RID>, recs': Records, extra': set<RID>)
    requires WellFormed(g, recs, extra) && recs - extra == recs' - extra' && extra' <= recs'.Keys
    ensures WellFormed(g, recs', extra')
  {
    hide Core, Fill;
    CoreKeys(g, recs, -1, -1, extra);
    forall r | r in g.owner ensures r in recs' && r !in extra' && recs'[r] == recs[r] {
      assert r in recs - extra;
    }
    assert forall r :: r in recs' && r !in extra' ==> r in recs - extra;
    RecordsChange(g, recs, -1, -1, extra, recs', extra');
  }

  // ---- nothing leaks and nothing dangles

  /** Key i of the node on page a is record r. */
  ghost predicate Slot(t: map<int, Node>, a: int, i: int, r: RID) {
    a in t && 0 <= i < |t[a].keys| && t[a].keys[i] == r
  }

  /** The live records are those in the slots of the tree, each in one slot. */
  lemma RecordsOwned(g: Tree, recs: Records)
    requires WellFormed(g, recs, {})
    ensures forall r :: r in recs <==> exists a, i :: Slot(g.nodes, a, i, r)
    ensures forall r, a, i, b, j :: Slot(g.nodes, a, i, r) && Slot(g.nodes, b, j, r) ==> a == b && i == j
    ensures forall a, i, r :: Slot(g.nodes, a, i, r) ==> (recs[r].value.Some? <==> g.nodes[a].lvl == 0)
  {
    hide Down, Up, Pending, RootOk, Fill;
    forall r | r in recs ensures exists a, i :: Slot(g.nodes, a, i, r) {
      assert r in g.owner;
      var a := g.owner[r];
      var i :| 0 <= i < |g.nodes[a].keys| && g.nodes[a].keys[i] == r;
      assert Slot(g.nodes, a, i, r);
    }
    forall a, i, r | Slot(g.nodes, a, i, r)
      ensures r in recs && g.owner[r] == a && (recs[r].value.Some? <==> g.nodes[a].lvl == 0)
    {
      assert NodeOk(g.nodes[a], recs) && r in g.nodes[a].keys;
    }
    forall r, a, i, b, j | Slot(g.nodes, a, i, r) && Slot(g.nodes, b, j, r) ensures a == b && i == j {
      assert NodeOk(g.nodes[a], recs);
    }
  }

  /** The pages of `path` lead from the root down, each being a child of the one before. */
  ghost predicate LeadsDown(view: seq<BPage>, path: seq<int>) {
    && view != [] && view[0].BCtrl? && path != [] && path[0] == view[0].root_node
    && (forall i :: 0 <= i < |path| ==>
      0 < path[i] < |view| && Proper(view[path[i]]) && view[path[i]].n < |view[path[i]].child|)
    && (forall i :: 0 <= i < |path| - 1 ==>
          !view[path[i]].leaf && path[i + 1] in view[path[i]].child[..view[path[i]].n + 1])
  }

  /** Page a is reached from root_node through child pointers. */
  ghost predicate Reached(view: seq<BPage>, a: int) {
    exists path :: LeadsDown(view, path) && path[|path| - 1] == a
  }

  lemma NodeReached(view: seq<BPage>, g: Tree, free: seq<int>, recs: Records, a: int)
    requires PagesOk(view, g, free, {}) && WellFormed(g, recs, {}) && a in g.nodes
    ensures Reached(view, a)
  {
    hide WellFormed, Core, PagesOk;
    CoreOf(g, recs);
    var path := Reachable(g, recs, {}, a);
    RootPage(view, g, free);
    forall i | 0 <= i < |path|
      ensures 0 < path[i] < |view| && Proper(view[path[i]]) && view[path[i]].n < |view[path[i]].child|
    {
      ShownNode(view, g, free, recs, path[i]);
    }
    forall i | 0 <= i < |path| - 1
      ensures !view[path[i]].leaf && path[i + 1] in view[path[i]].child[..view[path[i]].n + 1]
    {
      ShownNode(view, g, free, recs, path[i]);
      assert path[i + 1] in g.nodes[path[i]].kids;
    }
    assert LeadsDown(view, path);
  }

  lemma CoreOf(g: Tree, recs: Records)
    requires WellFormed(g, recs, {})
    ensures Core(g, recs, -1, -1, {})
  {
  }

  lemma RootPage(view: seq<BPage>, g: Tree, free: seq<int>)
    requires PagesOk(view, g, free, {})
    ensures view != [] && view[0].BCtrl? && view[0].root_node == g.root
  {
  }

  /** The children of a node are those on its page. */
  lemma ShownNode(view: seq<BPage>, g: Tree, free: seq<int>, recs: Records, a: int)
    requires PagesOk(view, g, free, {}) && WellFormed(g, recs, {}) && a in g.nodes
    ensures 0 < a < |view| && Proper(view[a]) && view[a].n < |view[a].child|
    ensures forall c :: c in g.nodes[a].kids <==> !view[a].leaf && c in view[a].child[..view[a].n + 1]
  {
    hide PagesOk, Core;
    CoreOf(g, recs);
    NodePage(view, g, free, {}, a);
    NodeFacts(g, recs, -1, -1, {}, a);
  }

  lemma {:induction false} ReachedNode(view: seq<BPage>, g: Tree, free: seq<int>, recs: Records, path: seq<int>)
    requires PagesOk(view, g, free, {}) && WellFormed(g, recs, {}) && LeadsDown(view, path)
    ensures path[|path| - 1] in g.nodes
  {
    hide WellFormed, Core, PagesOk, Proper;
    CoreOf(g, recs);
    RootFacts(g, recs, {});
    RootPage(view, g, free);
    var n := |path| - 1;
    if n > 0 {
      var up := path[..n];
      assert LeadsDown(view, up);
      ReachedNode(view, g, free, recs, up);
      ShownNode(view, g, free, recs, path[n - 1]);
      KidIn(g, recs, path[n - 1], path[n]);
    }
  }

  lemma KidIn(g: Tree, recs: Records, p: int, c: int)
    requires WellFormed(g, recs, {}) && p in g.nodes && c in g.nodes[p].kids
    ensures c in g.nodes
  {
    hide Up, Owned, Fill, Nodes;
    KidsOf(g.nodes, recs, -1, -1, p);
  }

  /** Every page but the control page is reached from the root, or in the queue of free pages,
      or lost, and in one of these ways only. */
  lemma PagesAccounted(view: seq<BPage>, g: Tree, free: seq<int>, recs: Records)
    requires PagesOk(view, g, free, {}) && WellFormed(g, recs, {})
    ensures forall a :: 0 < a < |view| <==> Reached(view, a) || a in free || a in g.lost
    ensures forall a :: Reached(view, a) ==> a !in free && a !in g.lost
    ensures forall a :: a in free ==> a !in g.lost
  {
    forall a ensures Reached(view, a) <==> a in g.nodes {
      if a in g.nodes {
        NodeReached(view, g, free, recs, a);
      }
      if Reached(view, a) {
        var path :| LeadsDown(view, path) && path[|path| - 1] == a;
        ReachedNode(view, g, free, recs, path);
      }
    }
    hide Shown, Queue, Reached;
  }

  /** Chunk c is one of the chunks of the string at root. */
  ghost predicate PartOf(chains: map<RID, seq<RID>>, c: RID, root: RID) {
    root in chains && c in chains[root]
  }

  /** Record r has the string at root as its key, or as its value. */
  ghost predicate UsedBy(refs: Refs, recs: Records, root: RID, r: RID) {
    r in refs && r in recs && Refers(refs[r], recs[r], root)
  }

  /** The live chunks are those of the strings that records use, each in one string of one
      record. */
  lemma ChunksOwned(items: Items, texts: Texts, chains: map<RID, seq<RID>>, owner: map<RID, RID>, refs: Refs,
      recs: Records, user: map<RID, RID>)
    requires TextsOk(items, texts, chains, owner) && RefsOk(refs, recs, texts, user, {})
    ensures forall c :: c in items <==> exists root, r :: PartOf(chains, c, root) && UsedBy(refs, recs, root, r)
    ensures forall c, root, r, root', r' ::
      PartOf(chains, c, root) && UsedBy(refs, recs, root, r) && PartOf(chains, c, root')
        && UsedBy(refs, recs, root', r') ==>
      root == root' && r == r'
  {
    hide Spells;
    forall c | c in items ensures exists root, r :: PartOf(chains, c, root) && UsedBy(refs, recs, root, r) {
      var root := owner[c];
      assert root in texts;
      assert PartOf(chains, c, root) && UsedBy(refs, recs, root, user[root]);
    }
    forall c, root | PartOf(chains, c, root) ensures c in items && owner[c] == root {
      assert Owns(owner, chains[root], root);
    }
    forall root, r | UsedBy(refs, recs, root, r) ensures root in user && user[root] == r {
      assert RefOk(refs[r], recs[r], texts, user, r);
    }
  }

  /** All files of a store. */
  datatype Files = Files(idx: seq<BPage>, tables: StoreFiles)

  /** Closed files hold the pairs; `lost` is what the tree will have lost when they are opened
      again. */
  ghost predicate Stored(files: Files, contents: Contents, lost: set<int>) {
    exists recs, at :: RecordFiles(files.tables, recs) && TreeFile(files.idx, recs, lost)
      && Abstracts(recs, at, contents)
  }

  class MyJql {
    const store: RecordStore
    const tree: BTree
    // what the store holds, and the record of every key
    ghost var contents: Contents
    ghost var at: map<String, RID>
    ghost const Repr: set<object>

    ghost predicate Open()
      reads this, Repr
    {
      && {this, tree, tree.pool, store} <= Repr && Repr == {this, tree} + tree.pool.Repr + store.Repr
      && this !in tree.pool.Repr && this !in store.Repr
      && tree.store == store && tree.Ready({}, {})
    }

    ghost predicate Valid()
      reads this, Repr
      ensures Valid() ==> this in Repr
    {
      Open() && WellFormed(tree.g, store.recs, {}) && Abstracts(store.recs, at, contents)
    }

    /** myjql_init on empty files. */
    constructor Init()
      ensures Valid() && fresh(Repr) && contents == map[] && tree.g.lost == {}
    {
      hide BufferPool.Valid, RecordStore.Valid, WellFormed;
      var records := new RecordStore.Init();
      var index := new BTree.Init(records);
      store, tree, contents, at := records, index, map[], map[];
      Repr := {this, index} + index.pool.Repr + records.Repr;
    }

    /** myjql_close. */
    method Close() returns (files: Files)
      requires Valid()
      modifies Repr
      ensures Stored(files, old(contents), old(tree.g.lost) + PagesFrom(|old(tree.pool.view)|, |files.idx|))
    {
      hide BufferPool.Valid, RecordStore.Valid, WellFormed, PagesOk, RecordFiles, TreeFile, Abstracts, PagesFrom;
      ghost var recs := store.recs;
      var idx := tree.Close();
      var tables := store.Close();
      files := Files(idx, tables);
    }

    /** myjql_init on the files of an earlier session. */
    constructor Reopen(files: Files, ghost contents: Contents, ghost lost: set<int>)
      requires Stored(files, contents, lost)
      ensures Valid() && fresh(Repr) && this.contents == contents
      ensures tree.g.lost == lost && tree.pool.view == files.idx
    {
      hide BufferPool.Valid, RecordStore.Valid, WellFormed, RecordFiles, TreeFile, Abstracts;
      ghost var recs, at :| RecordFiles(files.tables, recs) && TreeFile(files.idx, recs, lost)
        && Abstracts(recs, at, contents);
      var records := new RecordStore.Reopen(files.tables, recs);
      var index := new BTree.Reopen(files.idx, records, lost);
      store, tree, this.contents, this.at := records, index, contents, at;
      Repr := {this, index} + index.pool.Repr + records.Repr;
    }

    /** b_tree_search as the three operations use it. */
    method Locate(key: String) returns (rid: RID)
      requires Valid()
      modifies Repr
      ensures Valid() && contents == old(contents) && at == old(at) && tree.g.lost == old(tree.g.lost)
      ensures rid.block_addr < 0 <==> key !in contents
      ensures rid.block_addr >= 0 ==> key in at && rid == at[key]
    {
      hide BufferPool.Valid, RecordStore.Valid, WellFormed, Rank;
      rid := tree.Search(key);
      Ranks(key, rid);
    }

    lemma Ranks(key: String, rid: RID)
      requires store.Valid() && Abstracts(store.recs, at, contents)
      requires rid.block_addr < 0 ==> forall r :: r in store.recs && store.recs[r].value.Some? ==>
        store.recs[r].rank != Rank(key)
      requires rid.block_addr >= 0 ==>
        rid in store.recs && store.recs[rid].value.Some? && store.recs[rid].rank == Rank(key)
      ensures rid.block_addr < 0 <==> key !in contents
      ensures rid.block_addr >= 0 ==> key in at && rid == at[key]
    {
      hide RecordStore.Valid, Rank;
      if rid.block_addr >= 0 {
        RankLess(store.recs[rid].key, key);
      }
      if key in at {
        assert store.recs[at[key]].rank == Rank(key);
      }
    }

    /** myjql_get: the length of the value, of which the first max_size characters go to
        `value`; -1 if the key is not there. */
    method Get(key: String, value: array<Char>, max_size: nat) returns (ans: int)
      requires Valid() && value !in Repr && value.Length >= max_size
      modifies Repr, value
      ensures Valid() && contents == old(contents) && tree.g.lost == old(tree.g.lost)
      ensures key !in contents ==> ans == -1 && value[..] == old(value[..])
      ensures key in contents ==>
        var v := contents[key];
        var n := if |v| <= max_size then |v| else max_size;
        ans == |v| && value[..] == v[..n] + old(value[..])[n..]
    {
      hide BufferPool.Valid, RecordStore.Valid, WellFormed;
      var rid1 := Locate(key);
      if rid1.block_addr < 0 {
        return -1;
      }
      ans := store.ReadValue(rid1, value, max_size);
    }

    /** myjql_set of a key that is not there. */
    method SetNew(key: String, value: String)
      requires Valid() && key !in contents
      modifies Repr
      ensures Valid() && contents == old(contents)[key := value] && tree.g.lost == old(tree.g.lost)
    {
      hide BufferPool.Valid, RecordStore.Valid, WellFormed, Rank, Entries;
      var rid1 := store.NewRecord(key, value);
      ghost var e := store.recs[rid1];
      AbstractsSet(old(store.recs), at, contents, rid1, key, value, e);
      TreeKept(tree.g, old(store.recs), {}, store.recs, {rid1});
      Index(rid1, at[key := rid1], contents[key := value]);
    }

    /** b_tree_insert of a new record; the pairs are then those of `contents'`. */
    method Index(rid: RID, ghost at': map<String, RID>, ghost contents': Contents)
      requires Open() && WellFormed(tree.g, store.recs, {rid}) && Abstracts(store.recs, at', contents')
      requires rid in store.recs && store.recs[rid].value.Some?
      modifies Repr
      ensures Valid() && contents == contents' && at == at' && tree.g.lost == old(tree.g.lost)
    {
      hide BufferPool.Valid, RecordStore.Valid, WellFormed, Rank, Entries;
      ghost var recs := store.recs;
      OnlyOne(recs, at', contents', rid);
      var _, _, _ := tree.Insert(rid);
      AbstractsEntries(recs, store.recs, at', contents');
      contents, at := contents', at';
    }

    /** No other entry has the key of an entry. */
    lemma OnlyOne(recs: Records, at: map<String, RID>, contents: Contents, rid: RID)
      requires Abstracts(recs, at, contents) && rid in recs && recs[rid].value.Some?
      requires forall r :: r in recs ==> recs[r].rank == Rank(recs[r].key)
      ensures forall r :: r in recs && recs[r].value.Some? && r != rid ==> recs[r].rank != recs[rid].rank
    {
      hide Rank;
      forall r | r in recs && recs[r].value.Some? && r != rid ensures recs[r].rank != recs[rid].rank {
        RankLess(recs[r].key, recs[rid].key);
      }
    }

    /** b_tree_delete of the record of a key: the record itself stays. */
    method Unindex(rid: RID, ghost key: String)
      requires Valid() && key in at && rid == at[key]
      modifies Repr
      ensures Open() && WellFormed(tree.g, store.recs, {rid}) && Abstracts(store.recs, at, contents)
      ensures contents == old(contents) && at == old(at) && tree.g.lost == old(tree.g.lost)
    {
      hide BufferPool.Valid, RecordStore.Valid, WellFormed, Rank, Entries;
      ghost var recs := store.recs;
      OnlyOne(recs, at, contents, rid);
      ghost var gone, _, _ := tree.Delete(rid, {});
      assert {} + {gone} == {gone};
      AbstractsEntries(recs, store.recs, at, contents);
    }

    /** myjql_set of a key that is there. */
    method SetOld(rid: RID, ghost key: String, value: String)
      requires Valid() && key in at && rid == at[key]
      modifies Repr
      ensures Valid() && contents == old(contents)[key := value] && tree.g.lost == old(tree.g.lost)
    {
      hide BufferPool.Valid, RecordStore.Valid, WellFormed, Rank, Entries;
      Unindex(rid, key);
      ghost var recs := store.recs;
      var rid1 := store.ReplaceValue(rid, value);
      Replaced(recs, rid, key, value, rid1);
      Index(rid1, at[key := rid1], contents[key := value]);
    }

    lemma Replaced(recs: Records, rid: RID, key: String, value: String, rid1: RID)
      requires WellFormed(tree.g, recs, {rid}) && Abstracts(recs, at, contents) && key in at && rid == at[key]
      requires rid in recs && rid1 !in recs - {rid}
        && store.recs == (recs - {rid})[rid1 := recs[rid].(value := Some(value))]
      ensures WellFormed(tree.g, store.recs, {rid1}) && Abstracts(store.recs, at[key := rid1], contents[key := value])
    {
      hide WellFormed;
      assert store.recs - {rid1} == recs - {rid};
      TreeKept(tree.g, recs, {rid}, store.recs, {rid1});
      AbstractsDel(recs, at, contents, key);
      AbstractsSet(recs - {rid}, at - {key}, contents - {key}, rid1, key, value, recs[rid].(value := Some(value)));
      assert (at - {key})[key := rid1] == at[key := rid1] && (contents - {key})[key := value] == contents[key := value];
    }

    /** myjql_set. */
    method Set(key: String, value: String)
      requires Valid()
      modifies Repr
      ensures Valid() && contents == old(contents)[key := value] && tree.g.lost == old(tree.g.lost)
    {
      hide Open, WellFormed, Abstracts;
      var rid1 := Locate(key);
      if rid1.block_addr < 0 {
        SetNew(key, value);
      } else {
        SetOld(rid1, key, value);
      }
    }

    /** myjql_del. */
    method Del(key: String)
      requires Valid()
      modifies Repr
      ensures Valid() && contents == old(contents) - {key} && tree.g.lost == old(tree.g.lost)
    {
      hide Open, WellFormed, Abstracts;
      var rid1 := Locate(key);
      if rid1.block_addr < 0 {
        assert contents - {key} == contents;
        return;
      }
      Remove(rid1, key);
    }

    method Remove(rid: RID, ghost key: String)
      requires Valid() && key in at && rid == at[key]
      modifies Repr
      ensures Valid() && contents == old(contents) - {key} && tree.g.lost == old(tree.g.lost)
    {
      hide BufferPool.Valid, RecordStore.Valid, WellFormed, Rank, Entries;
      Unindex(rid, key);
      ghost var recs := store.recs;
      store.DropRecord(rid);
      Dropped(recs, rid, key);
      contents, at := contents - {key}, at - {key};
    }

    lemma Dropped(recs: Records, rid: RID, key: String)
      requires WellFormed(tree.g, recs, {rid}) && Abstracts(recs, at, contents) && key in at && rid == at[key]
      requires store.recs == recs - {rid}
      ensures WellFormed(tree.g, store.recs, {}) && Abstracts(store.recs, at - {key}, contents - {key})
    {
      hide WellFormed;
      AbstractsDel(recs, at, contents, key);
      assert recs - {rid} == store.recs - {};
      TreeKept(tree.g, recs, {rid}, store.recs, {});
    }

    /** Between operations: the live items of the record table are the records in the slots of
        the tree, each in one, and the live items of the string table are the chunks of their
        keys and values, each in one. */
    lemma NothingLeaks()
      requires Valid()
      ensures forall r :: r in store.tbl_rec.items <==> exists a, i :: Slot(tree.g.nodes, a, i, r)
      ensures forall r, a, i, b, j :: Slot(tree.g.nodes, a, i, r) && Slot(tree.g.nodes, b, j, r) ==> a == b && i == j
      ensures forall c :: c in store.tbl_str.table.items <==>
        exists root, r :: PartOf(store.tbl_str.chains, c, root) && UsedBy(store.refs, store.recs, root, r)
      ensures forall c, root, r, root', r' ::
        && PartOf(store.tbl_str.chains, c, root) && UsedBy(store.refs, store.recs, root, r)
        && PartOf(store.tbl_str.chains, c, root') && UsedBy(store.refs, store.recs, root', r') ==>
        root == root' && r == r'
    {
      hide WellFormed, TextsOk, RefsOk, BufferPool.Valid;
      RecordsOwned(tree.g, store.recs);
      var str := store.tbl_str;
      ChunksOwned(str.table.items, str.texts, str.chains, str.owner, store.refs, store.recs, store.user);
    }

    /** Between operations: every page of the index but the control page is reached from the
        root, or queued, or lost at a restart.  The queue is linked from head to tail, and the
        control page knows its ends and its length. */
    lemma NoPageLeaks()
      requires Valid()
      ensures forall a :: 0 < a < |tree.pool.view| <==> Reached(tree.pool.view, a) || a in tree.free || a in tree.g.lost
      ensures forall a :: Reached(tree.pool.view, a) ==> a !in tree.free && a !in tree.g.lost
      ensures forall a :: a in tree.free ==> a !in tree.g.lost
      ensures Queue(tree.pool.view, tree.free)
      ensures
        var view, free := tree.pool.view, tree.free;
        view != [] && view[0] == BCtrl(tree.g.root, Head(free), Tail(free), |free|)
    {
      hide WellFormed, BufferPool.Valid, RecordStore.Valid, Queue, Shown, Conserved, Reached;
      PagesAccounted(tree.pool.view, tree.g, tree.free, store.recs);
    }
  }
}
