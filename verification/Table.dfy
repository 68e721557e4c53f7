/** A heap of items of variable size (src/table.c) on slotted pages, with an index of their
    free space. */
module Tables {
  import opened Common
  import opened BufferPools
  import opened Blocks
  import opened HashChains
  import opened HashSteps
  import opened HashMaps

  type Page = m: seq<Cell> | |m| == PAGE_SIZE witness seq(PAGE_SIZE, i => 0)

  const MAX_ITEM := PAGE_SIZE - HEADER - ID_SIZE

  /** What slot i of a page holds; a slot that does not exist holds nothing. */
  ghost function SlotOf(m: Page, i: int): Slot
    requires HeaderOk(m)
  {
    if 0 <= i < |Slots(m)| then Slots(m)[i] else None
  }

  /** The size a block is filed under: its free space, less an id if none can be reused. */
  ghost function FreeSize(m: Page): (s: int)
    requires HeaderOk(m)
    ensures 0 <= s < PAGE_SIZE
  {
    var gap := TailPtr(m) - HeadPtr(m);
    if None in Slots(m) then gap else if gap < ID_SIZE then 0 else gap - ID_SIZE
  }

  /** A block filed under at least that size has room for an item of that size, unless the
      size is 0 and neither an id can be reused nor one more fits. */
  lemma FreeSizeRoom(m: Page, size: nat)
    requires HeaderOk(m) && size <= FreeSize(m)
    ensures Room(m, size) <==> size > 0 || None in Slots(m) || TailPtr(m) - HeadPtr(m) >= ID_SIZE
  {
  }

  /** A block is filed under the largest size that it has room for. */
  lemma NoRoomAbove(m: Page, size: nat)
    requires HeaderOk(m) && size > FreeSize(m)
    ensures !Room(m, size)
  {
  }

  /** A block that one item of the largest size fills. */
  function FullBlock(): Page {
    seq(PAGE_SIZE, i =>
      if i == 0 then 1
      else if i == 2 || i == 4 then HEADER + ID_SIZE
      else if i == HEADER then ItemId(0, HEADER + ID_SIZE, MAX_ITEM)
      else 0)
  }

  /** Why table_insert must not be called with size 0: the index may offer a full block. */
  lemma EmptyItemHasNoRoom()
    ensures BlockOk(FullBlock()) && FreeSize(FullBlock()) == 0 && !Room(FullBlock(), 0)
  {
    hide Availability, Offset, Size, ItemId;
    var m := FullBlock();
    PackedId(0, HEADER + ID_SIZE, MAX_ITEM);
    assert Avl(m, 0) == 0 && Off(m, 0) == HEADER + ID_SIZE && Siz(m, 0) == MAX_ITEM;
    assert SlotOk(m, 0);
    forall x | TailPtr(m) <= x < PAGE_SIZE ensures Covered(m, x) {
      assert Live(m, 0);
    }
    assert Slots(m)[0].Some?;
  }

  ghost predicate BlocksOk(view: seq<Page>) {
    forall a :: 0 <= a < |view| ==> BlockOk(view[a])
  }

  ghost function ItemOf(view: seq<Page>, r: RID): Slot
    requires BlocksOk(view)
  {
    if 0 <= r.block_addr < |view| then SlotOf(view[r.block_addr], r.idx) else None
  }

  /** The live items are exactly the used slots of the blocks. */
  ghost predicate ItemsOk(view: seq<Page>, items: map<RID, seq<Cell>>)
    requires BlocksOk(view)
  {
    forall r :: ItemOf(view, r) == if r in items then Some(items[r]) else None
  }

  /** Every block, except `out`, is filed once, under its free size. */
  ghost predicate IndexBut(view: seq<Page>, buckets: seq<multiset<int>>, out: int)
    requires BlocksOk(view)
  {
    |buckets| == PAGE_SIZE && forall s, a :: 0 <= s < PAGE_SIZE ==> CountOk(view, buckets[s], out, s, a)
  }

  ghost predicate CountOk(view: seq<Page>, bucket: multiset<int>, out: int, s: int, a: int)
    requires BlocksOk(view)
  {
    bucket[a] == if 0 <= a < |view| && a != out && FreeSize(view[a]) == s then 1 else 0
  }

  ghost predicate TableOk(view: seq<Page>, items: map<RID, seq<Cell>>, buckets: seq<multiset<int>>) {
    BlocksOk(view) && ItemsOk(view, items) && IndexBut(view, buckets, -1)
  }

  /** As TableOk, with one block not filed. */
  ghost predicate TableBut(view: seq<Page>, items: map<RID, seq<Cell>>, buckets: seq<multiset<int>>, out: int) {
    BlocksOk(view) && ItemsOk(view, items) && IndexBut(view, buckets, out)
  }

  /** The block that table_insert takes for an item of that size: of those with room for it one
      with the least free space, or else one more block. */
  ghost predicate BestFit(view: seq<Page>, size: nat, addr: int)
    requires BlocksOk(view)
  {
    if 0 <= addr < |view| then
      && size <= FreeSize(view[addr])
      && forall b :: 0 <= b < |view| && size <= FreeSize(view[b]) ==> FreeSize(view[addr]) <= FreeSize(view[b])
    else addr == |view| && forall b :: 0 <= b < |view| ==> FreeSize(view[b]) < size
  }

  lemma FitOffered(view: seq<Page>, buckets: seq<multiset<int>>, size: nat, at: int, addr: int)
    requires BlocksOk(view) && IndexBut(view, buckets, -1) && size <= at < PAGE_SIZE && addr in buckets[at]
    requires forall t :: size <= t < at ==> buckets[t] == multiset{}
    ensures 0 <= addr < |view| && BestFit(view, size, addr)
  {
    hide HeaderOk, FreeSize;
    assert CountOk(view, buckets[at], -1, at, addr);
    forall b | 0 <= b < |view| && size <= FreeSize(view[b]) ensures at <= FreeSize(view[b]) {
      assert CountOk(view, buckets[FreeSize(view[b])], -1, FreeSize(view[b]), b);
    }
  }

  lemma NoFit(view: seq<Page>, buckets: seq<multiset<int>>, size: nat)
    requires BlocksOk(view) && IndexBut(view, buckets, -1)
    requires forall t :: size <= t < PAGE_SIZE ==> buckets[t] == multiset{}
    ensures BestFit(view, size, |view|)
  {
    hide HeaderOk, FreeSize;
    forall b | 0 <= b < |view| ensures FreeSize(view[b]) < size {
      assert CountOk(view, buckets[FreeSize(view[b])], -1, FreeSize(view[b]), b);
    }
  }

  // ---- one page changes

  ghost function Changed(items: map<RID, seq<Cell>>, r: RID, slot: Slot): map<RID, seq<Cell>> {
    if slot.Some? then items[r := slot.value] else items - {r}
  }

  ghost predicate OneSlot(m: Page, k: int, slot: Slot, m': Page) {
    && BlockOk(m) && BlockOk(m')
    && forall i :: SlotOf(m', i) == if i == k then slot else SlotOf(m, i)
  }

  lemma SlotChanged(view: seq<Page>, items: map<RID, seq<Cell>>, r: RID, slot: Slot, m': Page)
    requires BlocksOk(view) && ItemsOk(view, items) && 0 <= r.block_addr < |view|
    requires OneSlot(view[r.block_addr], r.idx, slot, m')
    ensures
      var view' := view[r.block_addr := m'];
      BlocksOk(view') && ItemsOk(view', Changed(items, r, slot))
  {
    hide BlockOk, HeaderOk, SlotOf;
    var view' := view[r.block_addr := m'];
    assert BlocksOk(view');
    forall q ensures ItemOf(view', q) == if q in Changed(items, r, slot) then Some(Changed(items, r, slot)[q])
      else None {
      assert ItemOf(view, q) == if q in items then Some(items[q]) else None;
      if q.block_addr == r.block_addr && q.idx == r.idx {
        assert q == r;
      }
    }
  }

  lemma PageKept(view: seq<Page>, buckets: seq<multiset<int>>, a: int, m': Page)
    requires BlocksOk(view) && 0 <= a < |view| && BlockOk(m') && IndexBut(view, buckets, a)
    ensures BlocksOk(view[a := m']) && IndexBut(view[a := m'], buckets, a)
  {
    hide BlockOk, HeaderOk, FreeSize;
    var view' := view[a := m'];
    forall t, b | 0 <= t < PAGE_SIZE ensures CountOk(view', buckets[t], a, t, b) {
      assert CountOk(view, buckets[t], a, t, b);
    }
  }

  lemma PageAdded(view: seq<Page>, items: map<RID, seq<Cell>>, buckets: seq<multiset<int>>, m: Page)
    requires TableOk(view, items, buckets) && BlockOk(m) && Slots(m) == []
    ensures BlocksOk(view + [m]) && ItemsOk(view + [m], items) && IndexBut(view + [m], buckets, |view|)
  {
    hide BlockOk, HeaderOk, FreeSize;
    var view' := view + [m];
    assert BlocksOk(view');
    assert forall q :: ItemOf(view', q) == ItemOf(view, q);
    forall t, b | 0 <= t < PAGE_SIZE ensures CountOk(view', buckets[t], |view|, t, b) {
      assert CountOk(view, buckets[t], -1, t, b);
    }
  }

  lemma Unfiled(view: seq<Page>, buckets: seq<multiset<int>>, s: nat, a: int)
    requires BlocksOk(view) && IndexBut(view, buckets, -1) && s < PAGE_SIZE && a in buckets[s]
    ensures 0 <= a < |view| && FreeSize(view[a]) == s
    ensures IndexBut(view, buckets[s := buckets[s] - multiset{a}], a)
  {
    hide BlockOk, HeaderOk, FreeSize;
    assert CountOk(view, buckets[s], -1, s, a);
    var buckets' := buckets[s := buckets[s] - multiset{a}];
    forall t, b | 0 <= t < PAGE_SIZE ensures CountOk(view, buckets'[t], a, t, b) {
      assert CountOk(view, buckets[t], -1, t, b);
    }
  }

  lemma Filed(view: seq<Page>, buckets: seq<multiset<int>>, s: nat, a: int)
    requires BlocksOk(view) && 0 <= a < |view| && IndexBut(view, buckets, a) && s == FreeSize(view[a])
    ensures IndexBut(view, buckets[s := buckets[s] + multiset{a}], -1)
  {
    hide BlockOk, HeaderOk, FreeSize;
    var buckets' := buckets[s := buckets[s] + multiset{a}];
    forall t, b | 0 <= t < PAGE_SIZE ensures CountOk(view, buckets'[t], -1, t, b) {
      assert CountOk(view, buckets[t], a, t, b);
    }
  }

  // ---- the work on one page, on a copy of the frame that is then written back

  method InFrame(m: Page) returns (mem: array<Cell>)
    ensures fresh(mem) && mem[..] == m
  {
    mem := new Cell[PAGE_SIZE](i requires 0 <= i < PAGE_SIZE => m[i]);
  }

  method EmptyBlock(m: Page) returns (m': Page)
    ensures BlockOk(m') && Slots(m') == [] && FreeSize(m') == MAX_ITEM
  {
    var mem := InFrame(m);
    InitBlock(mem);
    m' := mem[..];
  }

  /** Slot k is free, and no slot before it is. */
  ghost predicate FirstFree(m: Page, k: nat)
    requires HeaderOk(m)
  {
    SlotOf(m, k) == None && forall j :: 0 <= j < k ==> SlotOf(m, j).Some?
  }

  lemma SlotAdded(m: Page, k: nat, item: seq<Cell>, m': Page)
    requires BlockOk(m) && BlockOk(m') && k <= |Slots(m)| && (k < |Slots(m)| ==> Slots(m)[k].None?)
    requires Slots(m') == if k < |Slots(m)| then Slots(m)[k := Some(item)] else Slots(m) + [Some(item)]
    requires forall j :: 0 <= j < k ==> Slots(m)[j].Some?
    ensures OneSlot(m, k, Some(item), m') && FirstFree(m, k)
  {
    hide Slots;
  }

  method AddItem(m: Page, item: seq<Cell>) returns (m': Page, idx: nat)
    requires BlockOk(m) && Room(m, |item|)
    ensures OneSlot(m, idx, Some(item), m') && FirstFree(m, idx)
  {
    hide Room, BlockOk, HeaderOk;
    var mem := InFrame(m);
    idx := NewItem(mem, item);
    m' := mem[..];
    SlotAdded(m, idx, item, m');
  }

  method DropItem(m: Page, idx: int) returns (m': Page)
    requires BlockOk(m)
    ensures OneSlot(m, idx, None, m')
  {
    var mem := InFrame(m);
    DeleteItem(mem, idx);
    m' := mem[..];
  }

  method ItemAt(m: Page, idx: int) returns (item: seq<Cell>)
    requires BlockOk(m) && SlotOf(m, idx).Some?
    ensures SlotOf(m, idx) == Some(item)
  {
    var mem := InFrame(m);
    var at := GetItem(mem, idx);
    item := [];
    var size := Size(m[IdAt(idx)]);
    for i := 0 to size
      invariant item == m[at.value..at.value + i]
    {
      item := item + [mem[at.value + i]];
    }
  }

  /** The computation of newsize and oldsize. */
  method FreeSizeOf(m: Page) returns (newsize: int)
    requires HeaderOk(m)
    ensures newsize == FreeSize(m)
  {
    newsize := m[4] - m[2];
    var tag := true;
    for i := 0 to m[0]
      invariant tag && forall j :: 0 <= j < i ==> Avl(m, j) == 0
    {
      assert SlotOk(m, i);
      if Availability(m[IdAt(i)]) != 0 {
        tag := false;
        assert Slots(m)[i] == None;
        break;
      }
    }
    if tag {
      AllUsed(m);
      newsize := newsize - ID_SIZE;
      newsize := if newsize < 0 then 0 else newsize;
    }
  }

  /** Two closed files hold a table. */
  ghost predicate TableFiles(data: seq<Page>, fsm: seq<HPage>, items: map<RID, seq<Cell>>) {
    exists buckets, lost :: TableOk(data, items, buckets) && HashFile(fsm, buckets, lost)
  }

  class Table {
    const data: BufferPool<Page>
    const fsm: HashMap
    // the live items
    ghost var items: map<RID, seq<Cell>>
    ghost const Repr: set<object>

    ghost predicate Open()
      reads this, Repr
    {
      && Repr == {this} + data.Repr + fsm.Repr && data in Repr && fsm in Repr
      && data.Repr !! fsm.Repr && this !in data.Repr && this !in fsm.Repr
      && data.Valid() && fsm.Valid()
    }

    ghost predicate Valid()
      reads this, Repr
      ensures Valid() ==> this in Repr
    {
      Open() && data.pinned == {} && data.Whole() && TableOk(data.view, items, fsm.buckets)
    }

    /** table_init on empty files. */
    constructor Init()
      ensures Valid() && fresh(Repr) && items == map[]
    {
      hide BufferPool.Valid, HashMap.Valid;
      var file := new BufferPool<Page>.Open([]);
      var index := new HashMap.Init();
      data, fsm, items := file, index, map[];
      Repr := {this} + file.Repr + index.Repr;
      new;
      NoBlocks(fsm.buckets);
    }

    /** table_close. */
    method Close() returns (data_file: seq<Page>, fsm_file: seq<HPage>)
      requires Valid()
      modifies Repr
      ensures TableFiles(data_file, fsm_file, old(items))
    {
      hide BufferPool.Valid, HashMap.Valid, HashFile, TableOk;
      data.Close();
      data_file := data.disk;
      assert data_file == data_file[..|data.view|] == data.view;
      ghost var buckets := fsm.buckets;
      fsm_file := fsm.Close();
    }

    /** table_init on files that exist. */
    constructor Reopen(data_file: seq<Page>, fsm_file: seq<HPage>, ghost items: map<RID, seq<Cell>>)
      requires TableFiles(data_file, fsm_file, items)
      ensures Valid() && fresh(Repr) && this.items == items
    {
      hide BufferPool.Valid, HashMap.Valid, HashFile, TableOk;
      ghost var buckets, lost :| TableOk(data_file, items, buckets) && HashFile(fsm_file, buckets, lost);
      var file := new BufferPool<Page>.Open(data_file);
      var index := new HashMap.Reopen(fsm_file, buckets, lost);
      data, fsm, this.items := file, index, items;
      Repr := {this} + file.Repr + index.Repr;
    }

    lemma NoBlocks(buckets: seq<multiset<int>>)
      requires |buckets| == PAGE_SIZE && forall s :: 0 <= s < PAGE_SIZE ==> buckets[s] == multiset{}
      ensures TableOk([], map[], buckets)
    {
    }

    lemma LiveItem(r: RID)
      requires TableOk(data.view, items, fsm.buckets)
      ensures r in items ==>
        && 0 <= r.block_addr < |data.view| && BlockOk(data.view[r.block_addr])
        && SlotOf(data.view[r.block_addr], r.idx) == Some(items[r])
    {
      assert ItemOf(data.view, r) == if r in items then Some(items[r]) else None;
    }

    /** table_read of a live item. */
    method Read(rid: RID) returns (item: seq<Cell>)
      requires Valid() && rid in items
      modifies Repr
      ensures Valid() && items == old(items) && item == items[rid]
    {
      hide BufferPool.Valid, HashMap.Valid, TableOk, BlockOk, HeaderOk, SlotOf;
      LiveItem(rid);
      var block := data.Fetch(rid.block_addr);
      item := ItemAt(block, rid.idx);
      data.Release(rid.block_addr);
    }

    /** The block for an item of that size, taken out of the index; `m` is its content and it is
        pinned. */
    method Claim(size: nat) returns (addr: int, m: Page)
      requires Valid() && 0 < size <= MAX_ITEM
      modifies Repr
      ensures Open() && data.pinned == {addr} && data.Whole() && 0 <= addr < |data.view| && items == old(items)
      ensures TableBut(data.view[addr := m], items, fsm.buckets, addr) && BlockOk(m) && Room(m, size)
      ensures BlocksOk(old(data.view)) && BestFit(old(data.view), size, addr)
      ensures if addr < |old(data.view)| then data.view == old(data.view) && m == data.view[addr]
        else |data.view| == |old(data.view)| + 1 && data.view[..addr] == old(data.view) && Slots(m) == []
    {
      hide BufferPool.Valid, HashMap.Valid, TableOk, TableBut, Room, BlockOk, HeaderOk, PagesFrom, Lost, BestFit,
        BlocksOk;
      ghost var at;
      addr, at := fsm.PopLowerBound(size);
      if addr == -1 {
        addr, m := ClaimNew(size);
      } else {
        m := ClaimOffered(old(fsm.buckets), at, addr, size);
      }
    }

    /** The index offers nothing: one more page. */
    method ClaimNew(size: nat) returns (addr: int, m: Page)
      requires Open() && data.pinned == {} && data.Whole() && TableOk(data.view, items, fsm.buckets)
      requires 0 < size <= MAX_ITEM && forall t :: size <= t < PAGE_SIZE ==> fsm.buckets[t] == multiset{}
      modifies data.Repr
      ensures Open() && data.pinned == {addr} && data.Whole() && addr == |old(data.view)| == |data.view| - 1
      ensures TableBut(data.view[addr := m], items, fsm.buckets, addr) && BlockOk(m) && Room(m, size)
      ensures BlocksOk(old(data.view)) && BestFit(old(data.view), size, addr)
      ensures data.view[..addr] == old(data.view) && Slots(m) == []
    {
      hide BufferPool.Valid, HashMap.Valid, TableOk, TableBut, Room, BlockOk, HeaderOk, BestFit, BlocksOk;
      LengthOf();
      addr := data.length;
      var blank := data.Fetch(addr);
      m := EmptyBlock(blank);
      NewBlock(old(data.view), fsm.buckets, m, size);
      assert data.view[addr := m] == old(data.view) + [m];
    }

    method ClaimOffered(ghost buckets: seq<multiset<int>>, ghost at: int, addr: int, size: nat) returns (m: Page)
      requires Open() && data.pinned == {} && data.Whole() && TableOk(data.view, items, buckets)
      requires 0 < size <= at < PAGE_SIZE && |buckets| == PAGE_SIZE && addr in buckets[at]
      requires forall t :: size <= t < at ==> buckets[t] == multiset{}
      requires fsm.buckets == buckets[at := buckets[at] - multiset{addr}]
      modifies data.Repr
      ensures Open() && data.pinned == {addr} && data.Whole() && 0 <= addr < |data.view|
      ensures data.view == old(data.view) && m == data.view[addr]
      ensures TableBut(data.view[addr := m], items, fsm.buckets, addr) && BlockOk(m) && Room(m, size)
      ensures BlocksOk(data.view) && BestFit(data.view, size, addr)
    {
      hide BufferPool.Valid, HashMap.Valid, TableOk, TableBut, Room, BlockOk, HeaderOk, BestFit, BlocksOk;
      Offered(buckets, at, addr, size);
      m := data.Fetch(addr);
      assert data.view[addr := m] == old(data.view);
    }

    lemma LengthOf()
      requires data.Valid()
      ensures data.length == |data.view|
    {
    }

    lemma NewBlock(view: seq<Page>, buckets: seq<multiset<int>>, m: Page, size: nat)
      requires TableOk(view, items, buckets) && BlockOk(m) && Slots(m) == [] && FreeSize(m) == MAX_ITEM
        && 0 < size <= MAX_ITEM
      requires forall t :: size <= t < PAGE_SIZE ==> buckets[t] == multiset{}
      ensures TableBut(view + [m], items, buckets, |view|) && Room(m, size)
      ensures BlocksOk(view) && BestFit(view, size, |view|)
    {
      NoFit(view, buckets, size);
      PageAdded(view, items, buckets, m);
      FreeSizeRoom(m, size);
    }

    /** What the index offers does have room. */
    lemma Offered(buckets: seq<multiset<int>>, at: int, addr: int, size: nat)
      requires TableOk(data.view, items, buckets) && 0 < size <= at < PAGE_SIZE && addr in buckets[at]
      requires forall t :: size <= t < at ==> buckets[t] == multiset{}
      ensures BlocksOk(data.view) && BestFit(data.view, size, addr)
      ensures 0 <= addr < |data.view| && BlockOk(data.view[addr]) && Room(data.view[addr], size)
      ensures TableBut(data.view, items, buckets[at := buckets[at] - multiset{addr}], addr)
    {
      FitOffered(data.view, buckets, size, at, addr);
      Unfiled(data.view, buckets, at, addr);
      FreeSizeRoom(data.view[addr], size);
    }

    /** Write a claimed block back and file it under its new free size. */
    method Refile(addr: int, m: Page, ghost after: map<RID, seq<Cell>>)
      requires Open() && data.pinned == {addr} && data.Whole() && 0 <= addr < |data.view| && BlockOk(m)
      requires TableBut(data.view[addr := m], after, fsm.buckets, addr)
      modifies Repr
      ensures Valid() && items == after && data.view == old(data.view)[addr := m]
    {
      hide BufferPool.Valid, HashMap.Valid, BlockOk, HeaderOk, IndexBut, ItemsOk, BlocksOk;
      HeaderOnly(m);
      data.Put(addr, m);
      var newsize := FreeSizeOf(m);
      Filed(data.view, fsm.buckets, newsize, addr);
      fsm.Insert(newsize, addr);
      data.Release(addr);
      items := after;
    }

    lemma HeaderOnly(m: Page)
      requires BlockOk(m)
      ensures HeaderOk(m)
    {
    }

    /** table_insert: the item goes to the best fitting block, into its first free slot, and so
        gets a record id that is not in use. */
    method Insert(src: seq<Cell>) returns (rid: RID)
      requires Valid() && 0 < |src| <= MAX_ITEM
      modifies Repr
      ensures Valid() && rid !in old(items) && rid.block_addr >= 0 && items == old(items)[rid := src]
      ensures BlocksOk(old(data.view)) && BestFit(old(data.view), |src|, rid.block_addr)
      ensures forall j :: 0 <= j < rid.idx ==> RID(rid.block_addr, j) in old(items)
      ensures |data.view| == |old(data.view)| + if rid.block_addr == |old(data.view)| then 1 else 0
    {
      hide BufferPool.Valid, HashMap.Valid, TableOk, BlockOk, HeaderOk, Room, TableBut, OneSlot, SlotOf, BestFit,
        FirstFree;
      var block_addr, block := Claim(|src|);
      var block', idx := AddItem(block, src);
      rid := RID(block_addr, idx);
      Added(data.view[block_addr := block], fsm.buckets, rid, src, block');
      assert data.view[block_addr := block][block_addr := block'] == data.view[block_addr := block'];
      Refile(block_addr, block', items[rid := src]);
    }

    lemma Added(view: seq<Page>, buckets: seq<multiset<int>>, rid: RID, src: seq<Cell>, m': Page)
      requires 0 <= rid.block_addr < |view| && TableBut(view, items, buckets, rid.block_addr)
      requires OneSlot(view[rid.block_addr], rid.idx, Some(src), m') && rid.idx >= 0
        && FirstFree(view[rid.block_addr], rid.idx)
      ensures forall j :: 0 <= j < rid.idx ==> RID(rid.block_addr, j) in items
      ensures BlockOk(m') && rid !in items
        && TableBut(view[rid.block_addr := m'], items[rid := src], buckets, rid.block_addr)
    {
      hide BlockOk, HeaderOk, SlotOf;
      assert ItemOf(view, rid) == None;
      forall j | 0 <= j < rid.idx ensures RID(rid.block_addr, j) in items {
        assert ItemOf(view, RID(rid.block_addr, j)).Some?;
      }
      SlotChanged(view, items, rid, Some(src), m');
      PageKept(view, buckets, rid.block_addr, m');
    }

    /** table_delete.  A slot that is not in use is left alone. */
    method Delete(rid: RID)
      requires Valid() && (rid in items || 0 <= rid.block_addr < |data.view|)
      modifies Repr
      ensures Valid() && items == old(items) - {rid} && |data.view| == |old(data.view)|
    {
      hide BufferPool.Valid, HashMap.Valid, TableOk, BlockOk, HeaderOk, Room, TableBut, OneSlot, SlotOf, Lost, FreeSize;
      LiveItem(rid);
      var addr := rid.block_addr;
      var block := data.Fetch(addr);
      Sized(addr);
      var oldsize := FreeSizeOf(block);
      var block' := DropItem(block, rid.idx);
      fsm.Pop(oldsize, addr);
      Dropped(old(fsm.buckets), rid, oldsize, block');
      Refile(addr, block', items - {rid});
    }

    lemma Sized(addr: int)
      requires TableOk(data.view, items, fsm.buckets) && 0 <= addr < |data.view|
      ensures BlockOk(data.view[addr]) && HeaderOk(data.view[addr]) && |fsm.buckets| == PAGE_SIZE
      ensures addr in fsm.buckets[FreeSize(data.view[addr])]
    {
      assert CountOk(data.view, fsm.buckets[FreeSize(data.view[addr])], -1, FreeSize(data.view[addr]), addr);
    }

    lemma Dropped(buckets: seq<multiset<int>>, rid: RID, oldsize: nat, m': Page)
      requires 0 <= rid.block_addr < |data.view| && TableOk(data.view, items, buckets)
      requires oldsize == FreeSize(data.view[rid.block_addr]) && |buckets| == PAGE_SIZE
        && rid.block_addr in buckets[oldsize]
      requires OneSlot(data.view[rid.block_addr], rid.idx, None, m')
      ensures BlockOk(m')
      ensures
        var a := rid.block_addr;
        TableBut(data.view[a := m'], items - {rid}, buckets[oldsize := buckets[oldsize] - multiset{a}], a)
    {
      hide BlockOk, HeaderOk, SlotOf;
      var a := rid.block_addr;
      Unfiled(data.view, buckets, oldsize, a);
      SlotChanged(data.view, items, rid, None, m');
      PageKept(data.view, buckets[oldsize := buckets[oldsize] - multiset{a}], a, m');
    }
  }
}
