/** The free-space map (src/hash_map.c): from a size to a bag of block addresses, kept in
    linked blocks on the pages of a file. */
module HashMaps {
  import opened Common
  import opened BufferPools
  import opened HashChains
  import opened HashSteps
  import opened HashFree

  class HashMap {
    const pool: BufferPool<HPage>
    // the layout of the file, and the addresses filed under each size
    ghost var g: Layout
    ghost var buckets: seq<multiset<int>>
    // what the running operation may leave pinned besides what it holds
    ghost var stray: set<int>
    ghost const Repr: set<object>

    ghost predicate Open()
      reads this, Repr
    {
      Repr == {this} + pool.Repr && pool in Repr && this !in pool.Repr && pool.Valid()
    }

    /** The pages of `held` are pinned, and no other but possibly the first one past the
        directories, if it was pinned when the operation began: an unsuccessful
        hash_table_pop_lower_bound leaves it pinned. */
    ghost predicate Pins(held: set<int>)
      reads this`stray, pool
    {
      held <= pool.pinned <= held + stray && stray <= {FIRST}
    }

    ghost predicate Ready(held: set<int>, hand: set<int>)
      reads this, Repr
    {
      Open() && Pins(held) && MapOk(pool.view, g, hand) && Counts(g.chains, buckets)
    }

    ghost predicate Valid()
      reads this, Repr
      ensures Valid() ==> this in Repr && |buckets| == PAGE_SIZE
    {
      Ready({}, {})
    }

    /** hash_table_init on an empty file. */
    constructor Init()
      ensures Valid() && fresh(Repr)
      ensures forall s :: 0 <= s < PAGE_SIZE ==> buckets[s] == multiset{}
      ensures |pool.view| == FIRST && pool.pinned == {} && Lost(g) == {}
    {
      var file := new BufferPool<HPage>.Open([]);
      pool, Repr, stray := file, {this} + file.Repr, {};
      g := Layout(NoChains(), [], map[]);
      buckets := seq(PAGE_SIZE, s => multiset{});
      new;
      hide MapOk, Counts, BufferPool.Valid;
      WriteAll();
      EmptyMap(pool.view);
    }

    /** hash_table_close. */
    method Close() returns (file: seq<HPage>)
      requires Valid()
      modifies Repr
      ensures |file| >= |old(pool.view)|
      ensures HashFile(file, old(buckets), Lost(old(g)) + PagesFrom(|old(pool.view)|, |file|))
    {
      hide MapOk, Counts, BufferPool.Valid, Lost, PagesFrom;
      pool.Close();
      file := pool.disk;
      assert HashFileUpTo(file, |pool.view|, g, buckets, Lost(g) + PagesFrom(|pool.view|, |file|));
    }

    /** hash_table_init on a file that exists. */
    constructor Reopen(file: seq<HPage>, ghost buckets: seq<multiset<int>>, ghost lost: set<int>)
      requires HashFile(file, buckets, lost)
      ensures Valid() && fresh(Repr) && this.buckets == buckets
      ensures Lost(g) == lost && pool.view == file && pool.pinned == {}
    {
      hide MapOk, Counts, BufferPool.Valid, Lost, PagesFrom;
      ghost var n, layout :| HashFileUpTo(file, n, layout, buckets, lost);
      FileExtended(file, n, layout);
      var cache := new BufferPool<HPage>.Open(file);
      pool, Repr, stray := cache, {this} + cache.Repr, {};
      g, this.buckets := WithLost(layout, n, |file|), buckets;
    }

    method WriteAll()
      requires Open() && Pins({}) && pool.view == []
      modifies pool.Repr
      ensures Open() && Pins({}) && |pool.view| == FIRST && pool.view[0] == Control(-1, DIRECTORIES, PAGE_SIZE)
      ensures forall d :: 0 < d < FIRST ==> EmptyDirectory(pool.view[d])
    {
      hide BufferPool.Valid, Pins, EmptyDirectory;
      WriteControl();
      for i := 1 to FIRST
        modifies pool.Repr
        invariant Open() && Pins({}) && |pool.view| == i
        invariant pool.view[0] == Control(-1, DIRECTORIES, PAGE_SIZE)
        invariant forall d :: 0 < d < i ==> EmptyDirectory(pool.view[d])
      {
        WriteDirectory(i);
      }
    }

    method WriteControl()
      requires Open() && Pins({}) && pool.view == []
      modifies pool.Repr
      ensures Open() && Pins({}) && pool.view == [Control(-1, DIRECTORIES, PAGE_SIZE)]
    {
      hide BufferPool.Valid, Pins;
      assert {} + {0} == {0} && {0} - {0} == {};
      var _ := Get(0, {});
      Put(0, Control(-1, DIRECTORIES, DIRECTORIES * HASH_MAP_DIR_BLOCK_SIZE), {0});
      Let(0, {0});
    }

    method WriteDirectory(i: int)
      requires Open() && Pins({}) && 0 < i == |pool.view|
      modifies pool.Repr
      ensures Open() && Pins({}) && |pool.view| == i + 1 && pool.view[..i] == old(pool.view)
        && EmptyDirectory(pool.view[i])
    {
      hide BufferPool.Valid;
      var _ := Get(i, {});
      var directory: seq<int> := [];
      for j := 0 to HASH_MAP_DIR_BLOCK_SIZE
        invariant |directory| == j && forall k :: 0 <= k < j ==> directory[k] == -1
      {
        directory := directory + [-1];
      }
      Put(i, Directory(directory), {i});
      Let(i, {i});
    }

    // ---- pages

    lemma Few(small: set<int>, large: set<int>)
      requires small <= large
      ensures |small| <= |large|
    {
      assert large == small + (large - small);
    }

    /** get_page as the map uses it: never a page that it already holds, and never more than
        three. */
    method Get(a: int, ghost held: set<int>) returns (p: HPage)
      requires Open() && Pins(held) && |held| <= 2 && a !in held && 0 <= a <= |pool.view|
      modifies pool.Repr
      ensures Open() && Pins(held + {a})
      ensures a < |pool.view| && p == pool.view[a]
      ensures pool.view == if a < |old(pool.view)| then old(pool.view) else old(pool.view) + [p]
    {
      hide BufferPool.Valid;
      Few(pool.pinned, held + {FIRST});
      p := pool.Fetch(a);
    }

    method Let(a: int, ghost held: set<int>)
      requires Open() && Pins(held) && a >= 0
      modifies pool.Repr
      ensures Open() && Pins(held - {a}) && pool.view == old(pool.view)
    {
      hide BufferPool.Valid;
      pool.Release(a);
    }

    method Put(a: int, p: HPage, ghost held: set<int>)
      requires Open() && Pins(held) && a in held && a >= 0
      modifies pool.Repr
      ensures Open() && Pins(held)
      ensures a < |old(pool.view)| && pool.view == old(pool.view)[a := p]
    {
      hide BufferPool.Valid;
      pool.Put(a, p);
    }

    // ---- the free list

    /** Pages of `held` are in use. */
    ghost predicate InUse(held: set<int>)
      reads this
    {
      forall a :: a in held ==> 0 < a && (a < FIRST || (a in g.home && g.home[a] != FREE))
    }

    /** get_new_hash_block: a page of the free list, or -1 if it is empty. */
    method GetNewHashBlock(ghost held: set<int>, ghost hand: set<int>) returns (ans: int)
      requires Ready(held, hand) && InUse(held) && |held| <= 1
      modifies this`g, pool.Repr
      ensures g.chains == old(g.chains) && buckets == old(buckets)
      ensures ans == -1 || (FIRST <= ans < |pool.view| && ans in old(g.home) && old(g.home)[ans] == FREE)
      ensures Ready(held, if ans == -1 then hand else hand + {ans})
      ensures SameDirectories(old(pool.view), pool.view) && |pool.view| == |old(pool.view)|
      ensures forall a :: a in old(g.home) && old(g.home)[a] != FREE ==>
        Same(old(pool.view), pool.view, a) && a in g.home && g.home[a] == old(g.home)[a]
      ensures ans == -1 <==> old(g.free) == []
      ensures g.home == old(g.home) - {ans} && Lost(g) == old(Lost(g))
      ensures ans == TopItem(old(g.free)) && g.free == Taken(old(g.free))
    {
      hide Pins, MapOk, Counts, Taken, TopItem;
      NoneTaken();
      ans := -1;
      ControlPage(hand);
      var ctr := Get(0, held);
      if ctr.free_block_head != -1 {
        ans := Unlist(ctr, held, hand);
      } else {
        Let(0, held + {0});
        assert held + {0} - {0} == held;
      }
    }

    /** The rest of get_new_hash_block when the list is not empty. */
    method Unlist(ctr: HPage, ghost held: set<int>, ghost hand: set<int>) returns (ans: int)
      requires Open() && Pins(held + {0}) && MapOk(pool.view, g, hand) && Counts(g.chains, buckets)
      requires InUse(held) && |held| <= 1 && pool.view != [] && ctr == pool.view[0] && ctr.Control?
        && ctr.free_block_head != -1
      modifies this`g, pool.Repr
      ensures g.chains == old(g.chains) && buckets == old(buckets)
      ensures FIRST <= ans < |pool.view| && ans in old(g.home) && old(g.home)[ans] == FREE
      ensures Ready(held, hand + {ans})
      ensures SameDirectories(old(pool.view), pool.view) && |pool.view| == |old(pool.view)|
      ensures forall a :: a in old(g.home) && old(g.home)[a] != FREE ==>
        Same(old(pool.view), pool.view, a) && a in g.home && g.home[a] == old(g.home)[a]
      ensures g.home == old(g.home) - {ans} && Lost(g) == old(Lost(g))
      ensures ans == TopItem(old(g.free)) && g.free == Taken(old(g.free))
    {
      hide Pins, MapOk, Counts, Holds, BufferPool.Valid, Taken, WithoutLast, WithHead, SameDirectories, FreeOk;
      FirstFree(hand);
      var tmp := ctr.free_block_head;
      assert tmp !in held && |held + {0}| <= 2;
      var mp := Get(tmp, held + {0});
      ans := mp.table[mp.n_items - 1];
      WipeLast(ctr, tmp, mp, held);
      FreeTaken(old(pool.view), g, hand, pool.view);
      TakenPages(old(pool.view), g, hand, pool.view);
      g := Layout(g.chains, Taken(g.free), g.home - {ans});
    }

    method WipeLast(ctr: HPage, tmp: int, mp: HPage, ghost held: set<int>)
      requires Open() && Pins(held + {0} + {tmp}) && 0 !in held && tmp !in held && 0 < tmp < |pool.view|
      requires ctr == pool.view[0] && mp == pool.view[tmp] && mp.Block? && ctr.Control? && ctr.free_block_head == tmp
      modifies pool.Repr
      ensures Open() && Pins(held)
      ensures
        var head := if mp.n_items == 1 then mp.next else tmp;
        pool.view == old(pool.view)[tmp := WithoutLast(mp)][0 := WithHead(ctr, head)]
    {
      hide Pins;
      Put(tmp, WithoutLast(mp), held + {0} + {tmp});
      if mp.n_items == 1 {
        Put(0, WithHead(ctr, mp.next), held + {0} + {tmp});
      }
      Let(0, held + {0} + {tmp});
      Let(tmp, held + {0} + {tmp} - {0});
      assert held + {0} + {tmp} - {0} - {tmp} == held;
    }

    lemma FirstFree(hand: set<int>)
      requires MapOk(pool.view, g, hand) && pool.view[0].Control? && pool.view[0].free_block_head != -1
      ensures
        var h := pool.view[0].free_block_head;
        && g.free != [] && h == g.free[0].addr && g.free[0].items != [] && IsBlock(pool.view, h) && FIRST <= h
        && h in g.home && g.home[h] == FREE
        && var p := pool.view[h];
           1 <= p.n_items == |g.free[0].items| <= |p.table| && p.table[p.n_items - 1] == g.free[0].items[p.n_items - 1]
      ensures forall x :: x in g.home ==> FIRST <= x < |pool.view|
    {
      FreeAddrs(pool.view, g, hand);
      assert LinkOk(pool.view, g.free, 0);
      assert g.free[0].addr in Addrs(g.free);
    }

    lemma ControlPage(hand: set<int>)
      requires MapOk(pool.view, g, hand)
      ensures FIRST <= |pool.view| && pool.view[0].Control? && pool.view[0].free_block_head == Head(g.free)
      ensures g.free == [] || Head(g.free) >= FIRST
      ensures forall x :: x in g.home ==> FIRST <= x < |pool.view|
    {
      assert g.free != [] ==> LinkOk(pool.view, g.free, 0);
    }

    // ---- walking a list

    /** From the first block to the first one with room, or to the last one. */
    method Walk(first: int, before: int, ghost c: Chain) returns (now: int, mp: HPage, ghost i: nat)
      requires Open() && Pins({before}) && ChainOk(pool.view, c) && c != [] && first == c[0].addr && 0 <= before < FIRST
      modifies pool.Repr
      ensures Open() && i < |c| && now == c[i].addr && Pins({now}) && pool.view == old(pool.view)
      ensures LinkOk(pool.view, c, i) && mp == pool.view[now]
      ensures mp.n_items < HASH_MAP_BLOCK_SIZE || i == |c| - 1
      ensures mp.n_items < HASH_MAP_BLOCK_SIZE ==> FirstRoom(c) == i
      ensures mp.n_items == HASH_MAP_BLOCK_SIZE ==> FirstRoom(c) == |c|
    {
      hide BufferPool.Valid, Holds, Different, FirstRoom;
      i, now := 0, first;
      assert LinkOk(pool.view, c, 0);
      mp := Get(now, {before});
      LetFirst(before, now);
      HoldsItems(mp, c[0].items);
      while mp.n_items == HASH_MAP_BLOCK_SIZE && mp.next >= 0
        invariant Open() && i < |c| && now == c[i].addr && Pins({now}) && pool.view == old(pool.view)
        invariant LinkOk(pool.view, c, i) && mp == pool.view[now] && mp.Block?
        invariant mp.n_items == |c[i].items| && FirstRoom(c) >= i
        decreases |c| - i
        modifies pool.Repr
      {
        RoomStep(c, i);
        var pre := now;
        now := mp.next;
        i := i + 1;
        assert LinkOk(pool.view, c, i - 1) && LinkOk(pool.view, c, i);
        assert c[i - 1].addr != c[i].addr by { NextDiffers(c, i - 1, i); }
        mp := Get(now, {pre});
        HoldsItems(mp, c[i].items);
        LetFirst(pre, now);
      }
      HoldsItems(mp, c[i].items);
      assert c[i + 1..] != [] ==> LinkOk(pool.view, c, i + 1);
      RoomStep(c, i);
    }

    lemma NextDiffers(c: Chain, i: nat, j: nat)
      requires Different(c) && i < j < |c|
      ensures c[i].addr != c[j].addr
    {
    }

    lemma HoldsItems(p: HPage, items: seq<int>)
      requires Holds(p, items)
      ensures p.Block? && p.n_items == |items| <= HASH_MAP_BLOCK_SIZE && |p.table| == HASH_MAP_BLOCK_SIZE
    {
    }

    /** Release the page behind the one just fetched. */
    method LetFirst(a: int, b: int)
      requires Open() && Pins({a} + {b}) && a >= 0 && a != b
      modifies pool.Repr
      ensures Open() && Pins({b}) && pool.view == old(pool.view)
    {
      hide BufferPool.Valid, Pins;
      Let(a, {a} + {b});
      assert {a} + {b} - {a} == {b};
    }

    // ---- insertion

    /** Make x, a page of the file or the next one, a block that holds only addr. */
    method Fresh(x: int, addr: int, before: int)
      requires Open() && Pins({before}) && 0 <= x <= |pool.view| && x != before && before >= 0 && addr >= 0
      modifies pool.Repr
      ensures Open() && Pins({}) && |pool.view| == |Extended(old(pool.view), x)|
      ensures Holds(pool.view[x], [addr]) && pool.view[x].next == -1
      ensures pool.view == Extended(old(pool.view), x)[x := pool.view[x]]
    {
      hide BufferPool.Valid, Pins;
      var _ := Get(x, {before});
      LetFirst(before, x);
      var table := [addr];
      for i := 1 to HASH_MAP_BLOCK_SIZE
        invariant |table| == i && table[0] == addr && forall k :: 1 <= k < i ==> table[k] == -1
      {
        table := table + [-1];
      }
      Put(x, Block(-1, 1, table), {x});
      Let(x, {x});
      assert {x} - {x} == {};
    }

    /** hash_table_insert when nothing is filed under that size. */
    method InsertFirst(size: nat, addr: int, dir: HPage)
      requires size < PAGE_SIZE && addr >= 0
      requires
        var d := size / HASH_MAP_DIR_BLOCK_SIZE + 1;
        Ready({d}, {}) && d < |pool.view| && dir == pool.view[d]
      requires |g.chains| == PAGE_SIZE && g.chains[size] == []
      modifies this`g, this`buckets, pool.Repr
      ensures Valid() && buckets == old(buckets)[size := old(buckets)[size] + multiset{addr}]
      ensures Lost(g) == old(Lost(g))
      ensures |pool.view| == |old(pool.view)| + if old(g.free) == [] then 1 else 0
      ensures AddrFiled(old(g), |old(pool.view)|, size, addr, g, |pool.view|)
    {
      hide BufferPool.Valid, MapOk, Pins, Holds, Counts, Lost, AddrFiled, Taken, TopItem;
      ghost var g0, len0 := g, |pool.view|;
      var d := size / HASH_MAP_DIR_BLOCK_SIZE + 1;
      ControlPage({});
      RoomInNone();
      var x := GetNewHashBlock({d}, {});
      assert Same(old(pool.view), pool.view, d);
      ghost var g1, v0 := g, pool.view;
      ghost var hand := if x == -1 then {} else {x};
      if x == -1 {
        x := pool.length;
      }
      Put(d, WithEntry(dir, size, x), {d});
      Fresh(x, addr, d);
      FileNew(size, x, addr, v0, hand);
      FiledInNew(g0, len0, size, addr, g1, x, g, |pool.view|);
    }

    /** The block x, in hand or just appended, was linked to the list of a size. */
    ghost method FileNew(size: nat, x: int, addr: int, v0: seq<HPage>, hand: set<int>)
      requires MapOk(v0, g, hand) && Counts(g.chains, buckets) && size < PAGE_SIZE && |g.chains| == PAGE_SIZE
      requires FIRST <= x <= |v0| && (x < |v0| ==> x in hand) && hand <= {x}
      requires |pool.view| == |Extended(v0, x)| && Holds(pool.view[x], [addr]) && pool.view[x].next == -1
      requires
        var c := g.chains[size];
        var d := size / HASH_MAP_DIR_BLOCK_SIZE + 1;
        if c == [] then d < |v0| && pool.view == Extended(v0, x)[d := WithEntry(v0[d], size, x)][x := pool.view[x]]
        else
          var a := c[|c| - 1].addr;
          IsBlock(v0, a) && pool.view == Extended(v0, x)[a := v0[a].(next := x)][x := pool.view[x]]
      modifies this`g, this`buckets
      ensures MapOk(pool.view, g, {}) && Counts(g.chains, buckets) && Lost(g) == old(Lost(g))
      ensures buckets == old(buckets)[size := old(buckets)[size] + multiset{addr}]
      ensures var c := old(g.chains)[size];
        g == Layout(old(g.chains)[size := c + [Link(x, [addr])]], old(g.free), old(g.home)[x := size])
    {
      hide MapOk, Holds, Counts, WithEntry, Extended, DirEntry;
      NotLost(v0, hand, x);
      BlockAdded(v0, g, size, x, addr, pool.view, hand);
      assert hand - {x} == {};
      var c := g.chains[size] + [Link(x, [addr])];
      CountsSet(g.chains, buckets, size, c);
      g := Layout(g.chains[size := c], g.free, g.home[x := size]);
      buckets := buckets[size := Held(c)];
    }

    lemma NotLost(v0: seq<HPage>, hand: set<int>, x: int)
      requires MapOk(v0, g, hand) && (x == |v0| || x in hand)
      ensures x !in g.home
    {
    }

    static lemma SameLost(g: Layout, g': Layout)
      requires g'.home == g.home
      ensures Lost(g') == Lost(g)
    {
    }

    lemma CountsSet(chains: seq<Chain>, buckets: seq<multiset<int>>, s: nat, c: Chain)
      requires Counts(chains, buckets) && s < PAGE_SIZE
      ensures |chains| == |buckets| == PAGE_SIZE && buckets[s] == Held(chains[s])
      ensures Counts(chains[s := c], buckets[s := Held(c)])
    {
    }

    /** hash_table_insert when there is a list for that size. */
    method InsertInto(size: nat, addr: int, dir: HPage)
      requires size < PAGE_SIZE && addr >= 0
      requires
        var d := size / HASH_MAP_DIR_BLOCK_SIZE + 1;
        Ready({d}, {}) && d < |pool.view| && dir == pool.view[d]
      requires |g.chains| == PAGE_SIZE && g.chains[size] != []
      modifies this`g, this`buckets, pool.Repr
      ensures Valid() && buckets == old(buckets)[size := old(buckets)[size] + multiset{addr}]
      ensures Lost(g) == old(Lost(g))
      ensures |pool.view| == |old(pool.view)| || (|pool.view| == |old(pool.view)| + 1 && old(g.free) == [])
      ensures AddrFiled(old(g), |old(pool.view)|, size, addr, g, |pool.view|)
    {
      hide BufferPool.Valid, MapOk, Pins, Holds, Counts, LinkOk, Lost;
      EntryOf(pool.view, g, {}, size);
      ghost var c := g.chains[size];
      var now, mp;
      ghost var i;
      now, mp, i := Walk(dir.directory[size % HASH_MAP_DIR_BLOCK_SIZE], size / HASH_MAP_DIR_BLOCK_SIZE + 1, c);
      LinkFacts(c, i);
      if mp.n_items < HASH_MAP_BLOCK_SIZE {
        AddTo(size, addr, now, mp, i);
      } else {
        AddAfter(size, addr, now, mp);
      }
    }

    lemma LinkFacts(c: Chain, i: nat)
      requires i < |c| && LinkOk(pool.view, c, i)
      ensures FIRST <= c[i].addr && IsBlock(pool.view, c[i].addr) && Holds(pool.view[c[i].addr], c[i].items)
      ensures pool.view[c[i].addr].n_items == |c[i].items| <= |pool.view[c[i].addr].table| == HASH_MAP_BLOCK_SIZE
      ensures c[i].items != []
    {
    }

    method AddTo(size: nat, addr: int, now: int, mp: HPage, ghost i: nat)
      requires size < PAGE_SIZE && addr >= 0 && Ready({now}, {}) && |g.chains| == PAGE_SIZE && i < |g.chains[size]|
      requires now == g.chains[size][i].addr && FIRST <= now && IsBlock(pool.view, now) && mp == pool.view[now]
      requires FirstRoom(g.chains[size]) == i
      requires Holds(mp, g.chains[size][i].items) && |g.chains[size][i].items| < HASH_MAP_BLOCK_SIZE
      modifies this`g, this`buckets, pool.Repr
      ensures Valid() && buckets == old(buckets)[size := old(buckets)[size] + multiset{addr}]
      ensures Lost(g) == old(Lost(g))
      ensures |pool.view| == |old(pool.view)|
      ensures AddrFiled(old(g), |old(pool.view)|, size, addr, g, |pool.view|)
    {
      hide BufferPool.Valid, MapOk, Pins, Holds, Counts, Lost, FirstRoom, Held;
      ghost var c := g.chains[size];
      ghost var items := c[i].items;
      ItemAdded(mp, items, addr);
      Put(now, WithItem(mp, addr), {now});
      Let(now, {now});
      assert {now} - {now} == {};
      BlockChanged(old(pool.view), g, {}, size, i, items + [addr], WithItem(mp, addr));
      ghost var c' := c[i := Link(now, items + [addr])];
      Cancel(Held(c'), multiset(items), Held(c), multiset{addr});
      CountsSet(g.chains, buckets, size, c');
      SameLost(g, Layout(g.chains[size := c'], g.free, g.home));
      g := Layout(g.chains[size := c'], g.free, g.home);
      buckets := buckets[size := Held(c')];
    }

    method AddAfter(size: nat, addr: int, now: int, mp: HPage)
      requires size < PAGE_SIZE && addr >= 0 && Ready({now}, {}) && |g.chains| == PAGE_SIZE && g.chains[size] != []
      requires
        var c := g.chains[size];
        now == c[|c| - 1].addr && FIRST <= now && IsBlock(pool.view, now) && mp == pool.view[now]
      requires FirstRoom(g.chains[size]) == |g.chains[size]|
      modifies this`g, this`buckets, pool.Repr
      ensures Valid() && buckets == old(buckets)[size := old(buckets)[size] + multiset{addr}]
      ensures Lost(g) == old(Lost(g))
      ensures |pool.view| == |old(pool.view)| + if old(g.free) == [] then 1 else 0
      ensures AddrFiled(old(g), |old(pool.view)|, size, addr, g, |pool.view|)
    {
      hide BufferPool.Valid, MapOk, Pins, Holds, Counts, Lost, AddrFiled, Taken, TopItem;
      ghost var g0, len0 := g, |pool.view|;
      ghost var c := g.chains[size];
      ControlPage({});
      HomeOf({}, size, |c| - 1);
      var x := GetNewHashBlock({now}, {});
      assert Same(old(pool.view), pool.view, now);
      ghost var g1, v0 := g, pool.view;
      ghost var hand := if x == -1 then {} else {x};
      if x == -1 {
        x := pool.length;
      }
      Put(now, mp.(next := x), {now});
      Fresh(x, addr, now);
      FileNew(size, x, addr, v0, hand);
      FiledInNew(g0, len0, size, addr, g1, x, g, |pool.view|);
    }

    lemma HomeOf(hand: set<int>, size: nat, i: nat)
      requires MapOk(pool.view, g, hand) && size < PAGE_SIZE && i < |g.chains[size]|
      ensures var a := g.chains[size][i].addr; a in g.home && g.home[a] == size && a !in hand
    {
      assert g.chains[size][i].addr in Addrs(g.chains[size]);
    }

    /** hash_table_insert.  The file grows by a page if a block is needed and none is free. */
    method Insert(size: int, addr: int)
      requires Valid() && addr >= 0
      modifies Repr
      ensures Valid()
      ensures buckets == if 0 <= size < PAGE_SIZE then old(buckets)[size := old(buckets)[size] + multiset{addr}]
        else old(buckets)
      ensures pool.pinned <= old(pool.pinned) && Lost(g) == old(Lost(g))
      ensures |pool.view| == |old(pool.view)| || (|pool.view| == |old(pool.view)| + 1 && old(g.free) == [])
      ensures 0 <= size < PAGE_SIZE ==> AddrFiled(old(g), |old(pool.view)|, size, addr, g, |pool.view|)
      ensures !(0 <= size < PAGE_SIZE) ==> g == old(g) && pool.view == old(pool.view)
    {
      hide BufferPool.Valid, MapOk, Counts, Lost;
      stray := pool.pinned;
      if 0 <= size < PAGE_SIZE {
        InsertAddr(size, addr);
      }
    }

    method InsertAddr(size: nat, addr: int)
      requires Valid() && size < PAGE_SIZE && addr >= 0
      modifies this`g, this`buckets, pool.Repr
      ensures Valid() && buckets == old(buckets)[size := old(buckets)[size] + multiset{addr}]
      ensures Lost(g) == old(Lost(g))
      ensures |pool.view| == |old(pool.view)| || (|pool.view| == |old(pool.view)| + 1 && old(g.free) == [])
      ensures AddrFiled(old(g), |old(pool.view)|, size, addr, g, |pool.view|)
    {
      hide BufferPool.Valid, MapOk, Pins, Counts, Lost;
      ControlPage({});
      EntryOf(pool.view, g, {}, size);
      var d := size / HASH_MAP_DIR_BLOCK_SIZE + 1;
      var dir := Get(d, {});
      assert {} + {d} == {d};
      if dir.directory[size % HASH_MAP_DIR_BLOCK_SIZE] == -1 {
        InsertFirst(size, addr, dir);
      } else {
        InsertInto(size, addr, dir);
      }
    }

    // ---- pages go back

    /** release_new_hash_block: a page that holds nothing goes to the free list. */
    method ReleaseNewHashBlock(x: int)
      requires Ready({}, {x}) && 0 <= x < |pool.view| && Holds(pool.view[x], [])
      modifies this`g, pool.Repr
      ensures Valid() && g.chains == old(g.chains) && buckets == old(buckets)
      ensures g.home == old(g.home)[x := FREE] && |pool.view| == |old(pool.view)|
      ensures g.free == Given(old(g.free), FirstRoom(old(g.free)), x)
    {
      hide BufferPool.Valid, MapOk, Pins, Counts, Holds;
      ControlPage({x});
      InHand(x);
      var ctr := Get(0, {});
      assert {} + {0} == {0};
      if ctr.free_block_head != -1 {
        ListIn(x, ctr.free_block_head);
      } else {
        ListFirst(x, ctr);
      }
    }

    lemma InHand(x: int)
      requires MapOk(pool.view, g, {x})
      ensures FIRST <= x < |pool.view| && x !in g.home
      ensures g.free != [] ==> g.free[0].addr >= FIRST
    {
      assert g.free != [] ==> LinkOk(pool.view, g.free, 0);
    }

    lemma ListsItself(p: HPage, x: int)
      requires Holds(p, []) && x >= 0
      ensures p.Block? && |p.table| == HASH_MAP_BLOCK_SIZE && Alone(Block(-1, 1, p.table[0 := x]), x)
    {
    }

    method ListFirst(x: int, ctr: HPage)
      requires Ready({0}, {x}) && FIRST <= x < |pool.view| && Holds(pool.view[x], []) && ctr == pool.view[0]
        && ctr.Control? && g.free == []
      modifies this`g, pool.Repr
      ensures Valid() && g.chains == old(g.chains) && buckets == old(buckets)
      ensures g.home == old(g.home)[x := FREE] && |pool.view| == |old(pool.view)|
      ensures g.free == Given(old(g.free), FirstRoom(old(g.free)), x)
    {
      hide BufferPool.Valid, MapOk, Pins, Counts, Holds, Alone;
      Put(0, WithHead(ctr, x), {0});
      Let(0, {0});
      assert {0} - {0} == {} && {} + {x} == {x} && {x} - {x} == {};
      var mp := Get(x, {});
      ListsItself(mp, x);
      Put(x, Block(-1, 1, mp.table[0 := x]), {x});
      Let(x, {x});
      FreeGiven(old(pool.view), g, {x}, 0, x, pool.view);
      g := Layout(g.chains, Given(g.free, 0, x), g.home[x := FREE]);
    }

    method ListIn(x: int, head: int)
      requires Ready({0}, {x}) && FIRST <= x < |pool.view| && Holds(pool.view[x], []) && g.free != []
        && head == g.free[0].addr
      requires x !in g.home
      modifies this`g, pool.Repr
      ensures Valid() && g.chains == old(g.chains) && buckets == old(buckets)
      ensures g.home == old(g.home)[x := FREE] && |pool.view| == |old(pool.view)|
      ensures g.free == Given(old(g.free), FirstRoom(old(g.free)), x)
    {
      hide BufferPool.Valid, MapOk, Pins, Counts, Holds, LinkOk;
      FreeChain({x});
      var now, mp;
      ghost var i;
      now, mp, i := Walk(head, 0, g.free);
      LinkFacts(g.free, i);
      if mp.n_items < HASH_MAP_BLOCK_SIZE {
        Put(now, WithItem(mp, x), {now});
        Let(now, {now});
        assert {now} - {now} == {} && {x} - {x} == {};
        FreeGiven(old(pool.view), g, {x}, i, x, pool.view);
        g := Layout(g.chains, Given(g.free, i, x), g.home[x := FREE]);
      } else {
        ListAfter(x, now, mp);
      }
    }

    lemma FreeChain(hand: set<int>)
      requires MapOk(pool.view, g, hand)
      ensures ChainOk(pool.view, g.free) && forall i :: 0 <= i < |g.free| ==> g.free[i].addr in g.home
    {
      FreeAddrs(pool.view, g, hand);
      assert forall i :: 0 <= i < |g.free| ==> g.free[i].addr in Addrs(g.free);
    }

    method ListAfter(x: int, now: int, mp: HPage)
      requires Ready({now}, {x}) && FIRST <= x < |pool.view| && Holds(pool.view[x], []) && g.free != []
        && now == g.free[|g.free| - 1].addr
      requires now != x && IsBlock(pool.view, now) && mp == pool.view[now]
      requires FirstRoom(g.free) == |g.free|
      modifies this`g, pool.Repr
      ensures Valid() && g.chains == old(g.chains) && buckets == old(buckets)
      ensures g.home == old(g.home)[x := FREE] && |pool.view| == |old(pool.view)|
      ensures g.free == Given(old(g.free), FirstRoom(old(g.free)), x)
    {
      hide BufferPool.Valid, MapOk, Pins, Counts, Holds, Alone;
      Put(now, mp.(next := x), {now});
      var last := Get(x, {now});
      LetFirst(now, x);
      ListsItself(last, x);
      Put(x, Block(-1, 1, last.table[0 := x]), {x});
      Let(x, {x});
      assert {x} - {x} == {};
      FreeGiven(old(pool.view), g, {x}, |g.free|, x, pool.view);
      g := Layout(g.chains, Given(g.free, |g.free|, x), g.home[x := FREE]);
    }

    /** An emptied block: the last page of the file is cut off, any other goes to the free
        list. */
    method GiveBack(now: int)
      requires Ready({now}, {now}) && 0 <= now < |pool.view| && Holds(pool.view[now], [])
      modifies this`g, pool.Repr
      ensures Valid() && g.chains == old(g.chains) && buckets == old(buckets)
      ensures if now == |old(pool.view)| - 1 then g.home == old(g.home) && |pool.view| == now
        else g.home == old(g.home)[now := FREE] && |pool.view| == |old(pool.view)|
      ensures g.free ==
        if now == |old(pool.view)| - 1 then old(g.free) else Given(old(g.free), FirstRoom(old(g.free)), now)
    {
      hide BufferPool.Valid, MapOk, Counts, Holds;
      assert {now} - {now} == {};
      LengthOf();
      if now == pool.length - 1 {
        PageDropped(pool.view, g, {now}, now);
        pool.DropLast(now);
      } else {
        Let(now, {now});
        ReleaseNewHashBlock(now);
      }
    }

    lemma LengthOf()
      requires pool.Valid()
      ensures pool.length == |pool.view|
    {
    }

    // ---- removal

    /** Wipe out item k of a block and fill the gap with the last item. */
    method TakeItem(mp: HPage, k: nat, ghost items: seq<int>) returns (p: HPage)
      requires Holds(mp, items) && k < |items|
      ensures Holds(p, Swapped(items, k)) && p.Block? && mp.Block? && p.next == if |items| == 1 then -1 else mp.next
      ensures p.n_items == |items| - 1
    {
      var table, n := mp.table[k := -1], mp.n_items - 1;
      assert mp.table[n] == items[n] >= 0;
      if n == 0 {
        return Block(-1, 0, table);
      }
      var j := HASH_MAP_BLOCK_SIZE - 1;
      while j > k
        invariant k <= j < HASH_MAP_BLOCK_SIZE && table == mp.table[k := -1] && (k < n ==> j >= n)
        invariant forall l :: j < l < HASH_MAP_BLOCK_SIZE ==> table[l] == -1
      {
        if table[j] >= 0 {
          assert table[j] == mp.table[j];
          table := table[k := table[j]][j := -1];
          break;
        }
        j := j - 1;
      }
      assert k < n ==> mp.table[k := -1][n] == items[n];
      assert table == if k < n then mp.table[k := items[n]][n := -1] else mp.table[k := -1];
      p := Block(mp.next, n, table);
    }

    /** Remove item k of block i. */
    method RemoveItem(size: nat, before: int, now: int, k: nat, first: bool, prev: HPage, mp: HPage, ghost i: nat)
      requires Ready({before} + {now}, {}) && At(pool.view, g.chains, size, i, before, now) && first == (i == 0)
      requires prev == pool.view[before] && mp == pool.view[now] && k < |g.chains[size][i].items|
      modifies this`g, this`buckets, pool.Repr
      ensures Valid()
      ensures buckets == old(buckets)[size := old(buckets)[size] - multiset{old(g.chains)[size][i].items[k]}]
      ensures Lost(g) == old(Lost(g)) && |pool.view| <= |old(pool.view)|
      ensures AddrUnfiled(old(g), |old(pool.view)|, size, i, k, g, |pool.view|)
    {
      hide BufferPool.Valid, MapOk, Pins, Counts, Holds, Lost;
      ghost var items := g.chains[size][i].items;
      var p := TakeItem(mp, k, items);
      if p.n_items == 0 {
        Unlink(size, before, now, first, prev, mp, p, i, items[k]);
      } else {
        Shrink(size, before, now, p, i, k);
      }
    }

    method Unlink(size: nat, before: int, now: int, first: bool, prev: HPage, mp: HPage, p: HPage, ghost i: nat,
        ghost x: int)
      requires Ready({before} + {now}, {}) && At(pool.view, g.chains, size, i, before, now) && first == (i == 0)
      requires prev == pool.view[before] && mp == pool.view[now]
      requires g.chains[size][i].items == [x] && Holds(p, [])
      modifies this`g, this`buckets, pool.Repr
      ensures Valid() && buckets == old(buckets)[size := old(buckets)[size] - multiset{x}]
      ensures Lost(g) == old(Lost(g)) && |pool.view| <= |old(pool.view)|
      ensures AddrUnfiled(old(g), |old(pool.view)|, size, i, 0, g, |pool.view|)
    {
      hide BufferPool.Valid, MapOk, Pins, Counts, Holds, Held, WithEntry, Removed, FirstRoom, Given, Swapped;
      HomeOf({}, size, i);
      Detach(size, before, now, first, prev, mp, p);
      ghost var c := g.chains[size];
      BlockUnlinked(old(pool.view), g, {}, size, i, p, pool.view);
      UnlinkedHeld(c, i, x);
      CountsSet(g.chains, buckets, size, Removed(c, i));
      assert {} + {now} == {now};
      g := Layout(g.chains[size := Removed(c, i)], g.free, g.home - {now});
      buckets := buckets[size := Held(Removed(c, i))];
      GiveBack(now);
    }

    method Detach(size: nat, before: int, now: int, first: bool, prev: HPage, mp: HPage, p: HPage)
      requires Open() && Pins({before} + {now}) && 0 < before < |pool.view| && 0 <= now < |pool.view| && before != now
      requires mp.Block? && (first || prev.Block?)
      modifies pool.Repr
      ensures Open() && Pins({now})
      ensures
        var prev' := if first then WithEntry(prev, size, mp.next) else prev.(next := mp.next);
        pool.view == old(pool.view)[before := prev'][now := p]
    {
      hide BufferPool.Valid, Pins, WithEntry;
      Put(before, if first then WithEntry(prev, size, mp.next) else prev.(next := mp.next), {before} + {now});
      Put(now, p, {before} + {now});
      LetFirst(before, now);
    }

    lemma UnlinkedHeld(c: Chain, i: nat, x: int)
      requires i < |c| && c[i].items == [x]
      ensures Held(Removed(c, i)) == Held(c) - multiset{x}
    {
      HeldRemoved(c, i);
      assert multiset([x]) == multiset{x};
    }

    lemma ShrunkHeld(c: Chain, i: nat, k: nat, c': Chain)
      requires i < |c| && k < |c[i].items|
      requires c' == c[i := Link(c[i].addr, Swapped(c[i].items, k))]
      ensures Held(c') == Held(c) - multiset{c[i].items[k]}
    {
      var items := c[i].items;
      SwappedCounts(items, k);
      HeldUpdate(c, i, Link(c[i].addr, Swapped(items, k)));
      Cancel(Held(c), multiset(Swapped(items, k)), Held(c'), multiset{items[k]});
    }

    method Restore(before: int, now: int, p: HPage)
      requires Open() && Pins({before} + {now}) && 0 < before < |pool.view| && 0 <= now < |pool.view| && before != now
      modifies pool.Repr
      ensures Open() && Pins({}) && pool.view == old(pool.view)[now := p]
    {
      hide BufferPool.Valid, Pins;
      Put(now, p, {before} + {now});
      LetFirst(before, now);
      Let(now, {now});
      assert {now} - {now} == {};
    }

    method Shrink(size: nat, before: int, now: int, p: HPage, ghost i: nat, ghost k: nat)
      requires Ready({before} + {now}, {}) && At(pool.view, g.chains, size, i, before, now)
        && k < |g.chains[size][i].items|
      requires |g.chains[size][i].items| > 1 && Holds(p, Swapped(g.chains[size][i].items, k)) && p.Block?
        && p.next == pool.view[now].next
      modifies this`g, this`buckets, pool.Repr
      ensures Valid()
      ensures buckets == old(buckets)[size := old(buckets)[size] - multiset{old(g.chains)[size][i].items[k]}]
      ensures Lost(g) == old(Lost(g)) && |pool.view| <= |old(pool.view)|
      ensures AddrUnfiled(old(g), |old(pool.view)|, size, i, k, g, |pool.view|)
    {
      hide BufferPool.Valid, MapOk, Pins, Counts, Holds, Lost, Held, FirstRoom, Given;
      Restore(before, now, p);
      ghost var c := g.chains[size];
      ghost var items := c[i].items;
      ghost var c' := c[i := Link(now, Swapped(items, k))];
      ShrunkHeld(c, i, k, c');
      BlockChanged(old(pool.view), g, {}, size, i, Swapped(items, k), p);
      CountsSet(g.chains, buckets, size, c');
      SameLost(g, Layout(g.chains[size := c'], g.free, g.home));
      g := Layout(g.chains[size := c'], g.free, g.home);
      buckets := buckets[size := Held(c')];
    }

    /** The first position of addr in the table of a block, or its number of items. */
    method FindIn(mp: HPage, addr: int, ghost items: seq<int>) returns (k: nat)
      requires Holds(mp, items)
      ensures k <= |items| && (k < |items| ==> items[k] == addr) && (k == |items| ==> addr !in items)
      ensures addr !in items[..k]
    {
      k := 0;
      while k < mp.n_items
        invariant k <= |items| && forall j :: 0 <= j < k ==> items[j] != addr
      {
        if mp.table[k] == addr {
          break;
        }
        k := k + 1;
      }
    }

    /** The walk of hash_table_pop to the block that holds addr. */
    method Find(size: nat, addr: int, dir: HPage)
      returns (before: int, now: int, k: nat, prev: HPage, mp: HPage, ghost i: nat)
      requires size < PAGE_SIZE && Ready({size / HASH_MAP_DIR_BLOCK_SIZE + 1}, {}) && FIRST <= |pool.view|
      requires dir == pool.view[size / HASH_MAP_DIR_BLOCK_SIZE + 1] && addr in buckets[size]
      modifies pool.Repr
      ensures Ready({before} + {now}, {}) && At(pool.view, g.chains, size, i, before, now)
        && pool.view == old(pool.view)
      ensures 0 <= before < |pool.view| && prev == pool.view[before] && 0 <= now < |pool.view| && mp == pool.view[now]
      ensures |g.chains| == PAGE_SIZE && i < |g.chains[size]|
      ensures k < |g.chains[size][i].items| && g.chains[size][i].items[k] == addr
      ensures FirstPlace(g.chains[size], addr, i, k)
    {
      hide BufferPool.Valid, MapOk, Pins, Counts, Holds, LinkOk, At;
      EntryOf(pool.view, g, {}, size);
      ghost var c := g.chains[size];
      NotEmpty(size, addr);
      before, prev, i := size / HASH_MAP_DIR_BLOCK_SIZE + 1, dir, 0;
      now := dir.directory[size % HASH_MAP_DIR_BLOCK_SIZE];
      FirstAt(pool.view, g, size, before, now);
      AtFacts(pool.view, g.chains, size, i, before, now);
      mp := Get(now, {before});
      k := FindIn(mp, addr, c[0].items);
      while k == mp.n_items && mp.next >= 0
        modifies pool.Repr
        invariant Open() && pool.view == old(pool.view) && Pins({before} + {now})
          && At(pool.view, g.chains, size, i, before, now)
        invariant before != now && 0 <= before < |pool.view| && prev == pool.view[before]
        invariant 0 <= now < |pool.view| && mp == pool.view[now] && mp.Block?
        invariant i < |c| && mp.n_items == |c[i].items| && forall j :: 0 <= j < i ==> addr !in c[j].items
        invariant k <= |c[i].items| && (k < |c[i].items| ==> c[i].items[k] == addr) && addr !in c[i].items[..k]
        invariant k == |c[i].items| ==> addr !in c[i].items
        decreases |c| - i
      {
        NextAt(pool.view, g, size, i, before, now);
        LetFirst(before, now);
        before, prev, now, i := now, mp, mp.next, i + 1;
        AtFacts(pool.view, g.chains, size, i, before, now);
        mp := Get(now, {before});
        k := FindIn(mp, addr, c[i].items);
      }
      Located(pool.view, g, size, addr, i, before, now, k);
    }

    lemma NotEmpty(size: nat, addr: int)
      requires Counts(g.chains, buckets) && size < PAGE_SIZE && addr in buckets[size]
      ensures g.chains[size] != [] && buckets[size] == Held(g.chains[size])
    {
    }

    /** hash_table_pop of an address filed under that size. */
    method Pop(size: int, addr: int)
      requires Valid() && (0 <= size < PAGE_SIZE ==> addr in buckets[size])
      modifies Repr
      ensures Valid()
      ensures buckets == if 0 <= size < PAGE_SIZE then old(buckets)[size := old(buckets)[size] - multiset{addr}]
        else old(buckets)
      ensures pool.pinned <= old(pool.pinned) && Lost(g) == old(Lost(g)) && |pool.view| <= |old(pool.view)|
      ensures 0 <= size < PAGE_SIZE ==>
        && |old(g.chains)| == PAGE_SIZE
        && exists i, k ::
          && FirstPlace(old(g.chains)[size], addr, i, k)
          && AddrUnfiled(old(g), |old(pool.view)|, size, i, k, g, |pool.view|)
      ensures !(0 <= size < PAGE_SIZE) ==> g == old(g) && pool.view == old(pool.view)
    {
      hide BufferPool.Valid, MapOk, Counts, Lost;
      stray := pool.pinned;
      if 0 <= size < PAGE_SIZE {
        PopNamed(size, addr);
      }
    }

    method PopNamed(size: nat, addr: int)
      requires Valid() && size < PAGE_SIZE && addr in buckets[size]
      modifies this`g, this`buckets, pool.Repr
      ensures Valid() && buckets == old(buckets)[size := old(buckets)[size] - multiset{addr}]
      ensures Lost(g) == old(Lost(g)) && |pool.view| <= |old(pool.view)|
      ensures |old(g.chains)| == PAGE_SIZE
      ensures exists i, k ::
        && FirstPlace(old(g.chains)[size], addr, i, k)
        && AddrUnfiled(old(g), |old(pool.view)|, size, i, k, g, |pool.view|)
    {
      hide BufferPool.Valid, MapOk, Pins, Counts, Holds, At, Lost;
      ControlPage({});
      var d := size / HASH_MAP_DIR_BLOCK_SIZE + 1;
      var dir := Get(d, {});
      assert {} + {d} == {d};
      var before, now, k, prev, mp;
      ghost var i;
      before, now, k, prev, mp, i := Find(size, addr, dir);
      AtFacts(pool.view, g.chains, size, i, before, now);
      RemoveItem(size, before, now, k, before < FIRST, prev, mp, i);
    }

    /** my_hash_table_pop: remove the item at that index of the first block. */
    method MyHashTablePop(size: nat, index: nat)
      requires Valid() && size < PAGE_SIZE && |g.chains| == PAGE_SIZE && g.chains[size] != []
        && index < |g.chains[size][0].items|
      modifies this`g, this`buckets, pool.Repr
      ensures Valid()
      ensures buckets == old(buckets)[size := old(buckets)[size] - multiset{old(g.chains)[size][0].items[index]}]
      ensures Lost(g) == old(Lost(g)) && |pool.view| <= |old(pool.view)|
      ensures AddrUnfiled(old(g), |old(pool.view)|, size, 0, index, g, |pool.view|)
    {
      hide BufferPool.Valid, MapOk, Pins, Counts, Holds, At, Lost;
      ControlPage({});
      EntryOf(pool.view, g, {}, size);
      var d := size / HASH_MAP_DIR_BLOCK_SIZE + 1;
      var dir := Get(d, {});
      assert {} + {d} == {d};
      var now := dir.directory[size % HASH_MAP_DIR_BLOCK_SIZE];
      FirstAt(pool.view, g, size, d, now);
      AtFacts(pool.view, g.chains, size, 0, d, now);
      var mp := Get(now, {d});
      RemoveItem(size, d, now, index, true, dir, mp, 0);
    }

    /** Nothing is filed under that size or a larger one. */
    ghost predicate NoneFrom(size: int)
      reads this`buckets
    {
      |buckets| == PAGE_SIZE && 0 <= size < PAGE_SIZE && forall t :: size <= t < PAGE_SIZE ==> buckets[t] == multiset{}
    }

    /** hash_table_pop_lower_bound: an address filed under the smallest size, from the given one
        on, that has any; -1 only if none has.  `at` is that size.  In that case alone the search
        leaves a page pinned that was not, the one past the directories, unless it was pinned
        already; and it appends that page if the file ends with the directories. */
    method PopLowerBound(size: int) returns (ans: int, ghost at: int)
      requires Valid()
      modifies Repr
      ensures Valid()
      ensures ans == -1 <==> old(NoneFrom(size)) || !(0 <= size < PAGE_SIZE)
      ensures ans == -1 ==> buckets == old(buckets)
      ensures ans != -1 ==>
        && size <= at < PAGE_SIZE && ans >= 0 && ans in old(buckets)[at]
        && (forall t :: size <= t < at ==> old(buckets)[t] == multiset{})
        && buckets == old(buckets)[at := old(buckets)[at] - multiset{ans}]
      ensures pool.pinned <= old(pool.pinned) <==> !old(NoneFrom(size)) || FIRST in old(pool.pinned)
      ensures |pool.view| > |old(pool.view)| <==> old(NoneFrom(size)) && |old(pool.view)| == FIRST
      ensures old(NoneFrom(size)) ==>
        pool.pinned == {FIRST} && |pool.view| == if |old(pool.view)| == FIRST then FIRST + 1 else |old(pool.view)|
      ensures Lost(g) == old(Lost(g)) + PagesFrom(|old(pool.view)|, |pool.view|)
      ensures ans != -1 ==>
        && |old(g.chains)| == PAGE_SIZE && ans == TopItem(old(g.chains)[at])
        && AddrUnfiled(old(g), |old(pool.view)|, at, 0, |old(g.chains)[at][0].items| - 1, g, |pool.view|)
      ensures ans == -1 ==>
        g == if |pool.view| > |old(pool.view)| then WithLost(old(g), FIRST, FIRST + 1) else old(g)
    {
      hide BufferPool.Valid, MapOk, Counts, Holds, Lost, WithLost;
      at := size;
      stray := pool.pinned;
      if 0 <= size < PAGE_SIZE {
        var tmp, dir := Scan(size);
        at := tmp;
        NoneBelow(size, tmp);
        if tmp == PAGE_SIZE {
          stray := {FIRST};
          ans := -1;
        } else {
          SomeAt(tmp);
          ans := PopFirst(tmp, dir);
        }
      } else {
        ans := -1;
      }
    }

    lemma SomeAt(size: nat)
      requires MapOk(pool.view, g, {}) && Counts(g.chains, buckets) && size < PAGE_SIZE && g.chains[size] != []
      ensures buckets[size] != multiset{}
    {
      assert ChainOk(pool.view, g.chains[size]) && LinkOk(pool.view, g.chains[size], 0);
      HeldMember(g.chains[size], 0, 0);
    }

    lemma NoneBelow(size: nat, tmp: nat)
      requires Counts(g.chains, buckets) && size <= tmp <= PAGE_SIZE && forall t :: size <= t < tmp ==>
        g.chains[t] == []
      ensures forall t :: size <= t < tmp ==> buckets[t] == multiset{}
    {
    }

    /** The search through the directories: the first size with a list, or PAGE_SIZE.  After
        the last directory it steps to the page past them, appending it if there is none. */
    method Scan(size: nat) returns (tmp: nat, dir: HPage)
      requires Valid() && size < PAGE_SIZE
      modifies this`g, pool.Repr
      ensures size <= tmp <= PAGE_SIZE && Ready({tmp / HASH_MAP_DIR_BLOCK_SIZE + 1}, {}) && g.chains == old(g.chains)
      ensures tmp / HASH_MAP_DIR_BLOCK_SIZE + 1 < |pool.view| && dir == pool.view[tmp / HASH_MAP_DIR_BLOCK_SIZE + 1]
      ensures |g.chains| == PAGE_SIZE && forall t :: size <= t < tmp ==> g.chains[t] == []
      ensures tmp < PAGE_SIZE ==> g.chains[tmp] != []
      ensures |pool.view| == if tmp == PAGE_SIZE && |old(pool.view)| == FIRST then FIRST + 1 else |old(pool.view)|
      ensures Lost(g) == old(Lost(g)) + PagesFrom(|old(pool.view)|, |pool.view|)
      ensures tmp < PAGE_SIZE ==> pool.view == old(pool.view)
      ensures g == if tmp == PAGE_SIZE && |old(pool.view)| == FIRST then WithLost(old(g), FIRST, FIRST + 1) else old(g)
    {
      hide BufferPool.Valid, MapOk, Pins, Counts, Lost, WithLost;
      ControlPage({});
      EntryOf(pool.view, g, {}, size);
      tmp := size;
      var dir_id := size / HASH_MAP_DIR_BLOCK_SIZE + 1;
      dir := Get(dir_id, {});
      assert {} + {dir_id} == {dir_id};
      while tmp < PAGE_SIZE && dir.directory[tmp % HASH_MAP_DIR_BLOCK_SIZE] == -1
        modifies this`g, pool.Repr
        invariant |pool.view| == if tmp == PAGE_SIZE && |old(pool.view)| == FIRST then FIRST + 1 else |old(pool.view)|
        invariant Lost(g) == old(Lost(g)) + PagesFrom(|old(pool.view)|, |pool.view|)
        invariant size <= tmp <= PAGE_SIZE && dir_id == tmp / HASH_MAP_DIR_BLOCK_SIZE + 1 && g.chains == old(g.chains)
        invariant Ready({dir_id}, {}) && dir_id < |pool.view| && dir == pool.view[dir_id]
        invariant tmp < PAGE_SIZE ==>
          DirEntry(pool.view, tmp, Head(g.chains[tmp])) && (g.chains[tmp] == [] || Head(g.chains[tmp]) >= FIRST)
        invariant forall t :: size <= t < tmp ==> g.chains[t] == []
        invariant tmp < PAGE_SIZE ==> pool.view == old(pool.view)
        invariant g ==
          if tmp == PAGE_SIZE && |old(pool.view)| == FIRST then WithLost(old(g), FIRST, FIRST + 1) else old(g)
        decreases PAGE_SIZE - tmp
      {
        tmp := tmp + 1;
        if tmp % HASH_MAP_DIR_BLOCK_SIZE == 0 {
          dir := NextPage(dir_id);
          dir_id := dir_id + 1;
        }
        if tmp < PAGE_SIZE {
          EntryOf(pool.view, g, {}, tmp);
        }
      }
    }

    /** From a directory to the page after it. */
    method NextPage(d: int) returns (dir: HPage)
      requires Ready({d}, {}) && 0 < d < FIRST
      modifies this`g, pool.Repr
      ensures Ready({d + 1}, {}) && d + 1 < |pool.view| && dir == pool.view[d + 1]
      ensures g.chains == old(g.chains) && |pool.view| == if |old(pool.view)| == d + 1 then d + 2 else |old(pool.view)|
      ensures Lost(g) == old(Lost(g)) + PagesFrom(|old(pool.view)|, |pool.view|)
      ensures |old(pool.view)| > d + 1 ==> pool.view == old(pool.view)
      ensures g == if |old(pool.view)| == d + 1 then WithLost(old(g), d + 1, d + 2) else old(g)
    {
      hide BufferPool.Valid, MapOk, Pins, Counts, Lost;
      ControlPage({});
      Let(d, {d});
      assert {d} - {d} == {} && {} + {d + 1} == {d + 1};
      ghost var v0 := pool.view;
      dir := Get(d + 1, {});
      if |v0| == d + 1 {
        assert pool.view[..|v0|] == v0;
        FileExtended(pool.view, |v0|, g);
        g := WithLost(g, |v0|, |pool.view|);
      }
    }

    /** The last item of the first block of the list of that size is removed. */
    method PopFirst(size: nat, dir: HPage) returns (ans: int)
      requires size < PAGE_SIZE && |g.chains| == PAGE_SIZE && g.chains[size] != []
      requires
        var d := size / HASH_MAP_DIR_BLOCK_SIZE + 1;
        Ready({d}, {}) && d < |pool.view| && dir == pool.view[d]
      modifies this`g, this`buckets, pool.Repr
      ensures Valid() && ans >= 0 && ans in old(buckets)[size]
      ensures buckets == old(buckets)[size := old(buckets)[size] - multiset{ans}]
      ensures Lost(g) == old(Lost(g)) && |pool.view| <= |old(pool.view)|
      ensures old(g.chains)[size][0].items != []
      ensures var k := |old(g.chains)[size][0].items| - 1;
        ans == old(g.chains)[size][0].items[k] && AddrUnfiled(old(g), |old(pool.view)|, size, 0, k, g, |pool.view|)
    {
      hide BufferPool.Valid, MapOk, Pins, Counts, Holds, Lost;
      var index;
      ans, index := LastItem(size, dir);
      MyHashTablePop(size, index);
    }

    method LastItem(size: nat, dir: HPage) returns (ans: int, index: nat)
      requires size < PAGE_SIZE && |g.chains| == PAGE_SIZE && g.chains[size] != []
      requires
        var d := size / HASH_MAP_DIR_BLOCK_SIZE + 1;
        Ready({d}, {}) && d < |pool.view| && dir == pool.view[d]
      modifies pool.Repr
      ensures Valid() && pool.view == old(pool.view)
      ensures index < |g.chains[size][0].items| && ans == g.chains[size][0].items[index] >= 0 && ans in buckets[size]
      ensures index == |g.chains[size][0].items| - 1
    {
      hide BufferPool.Valid, MapOk, Pins, Counts, Holds, At;
      EntryOf(pool.view, g, {}, size);
      var d := size / HASH_MAP_DIR_BLOCK_SIZE + 1;
      var now := dir.directory[size % HASH_MAP_DIR_BLOCK_SIZE];
      FirstAt(pool.view, g, size, d, now);
      LastOfFirst(pool.view, g.chains, size, d, now);
      CountsSet(g.chains, buckets, size, []);
      AtFacts(pool.view, g.chains, size, 0, d, now);
      var mp := Get(now, {d});
      LetFirst(d, now);
      ans, index := mp.table[mp.n_items - 1], mp.n_items - 1;
      Let(now, {now});
      assert {now} - {now} == {};
    }

    ghost predicate InListOf(s: int, a: int)
      reads this`g
    {
      0 <= s < |g.chains| && a in Addrs(g.chains[s])
    }

    /** Between operations every page past the directories is a block of the list of one size, or
        on the free list, or belongs to nothing, and only one of these. */
    lemma PagesOwned()
      requires Valid()
      ensures forall a :: FIRST <= a < |pool.view| <==>
        (exists s :: InListOf(s, a)) || a in Held(g.free) || a in Lost(g)
      ensures forall s, t, a :: InListOf(s, a) && InListOf(t, a) ==> s == t
      ensures forall s, a :: InListOf(s, a) ==> a !in Held(g.free) && a !in Lost(g)
      ensures forall a :: a in Held(g.free) ==> a !in Lost(g) && Held(g.free)[a] == 1
    {
      hide Directories, ChainsOk, BufferPool.Valid, Held, Counts;
      forall a | a in g.home ensures (exists s :: InListOf(s, a)) || a in Held(g.free) || a in Lost(g) {
        if g.home[a] < FREE {
          assert InListOf(g.home[a], a);
        }
      }
      assert forall s, a :: InListOf(s, a) ==> a in g.home && g.home[a] == s;
    }
  }

  /** On an empty map the search appends the page past the directories and leaves it pinned. */
  method PopFromEmpty() returns (m: HashMap, ans: int)
    ensures m.Valid() && ans == -1
    ensures |m.pool.view| == FIRST + 1 && m.pool.pinned == {FIRST} && Lost(m.g) == {FIRST}
  {
    hide HashMap.Valid, Lost;
    m := new HashMap.Init();
    ghost var at;
    ans, at := m.PopLowerBound(0);
    assert PagesFrom(FIRST, FIRST + 1) == {FIRST};
  }
}
