/** What one step of the free-space map does to its file, as facts about page sequences. */
module HashSteps {
  import opened Common
  import opened HashChains

  // ---- directory entries

  ghost predicate SameDirectories(view: seq<HPage>, view': seq<HPage>) {
    forall d :: 0 < d < FIRST ==> Same(view, view', d)
  }

  lemma EntriesKept(view: seq<HPage>, s: nat, head: int, view': seq<HPage>)
    requires SameDirectories(view, view') && s < PAGE_SIZE && DirEntry(view, s, head)
    ensures OtherEntries(view, s, view') && DirEntry(view', s, head)
  {
    forall t, h | 0 <= t < PAGE_SIZE && DirEntry(view, t, h) ensures DirEntry(view', t, h) {
      assert Same(view, view', t / HASH_MAP_DIR_BLOCK_SIZE + 1);
    }
  }

  function WithEntry(p: HPage, s: nat, head: int): HPage {
    if p.Directory? && s % HASH_MAP_DIR_BLOCK_SIZE < |p.directory|
    then Directory(p.directory[s % HASH_MAP_DIR_BLOCK_SIZE := head]) else p
  }

  lemma EntrySet(view: seq<HPage>, s: nat, old_head: int, head: int, view': seq<HPage>)
    requires s < PAGE_SIZE && DirEntry(view, s, old_head)
    requires forall d :: 0 < d < FIRST && d != s / HASH_MAP_DIR_BLOCK_SIZE + 1 ==> Same(view, view', d)
    requires
      var d := s / HASH_MAP_DIR_BLOCK_SIZE + 1;
      d < |view'| && view'[d] == WithEntry(view[d], s, head)
    ensures OtherEntries(view, s, view') && DirEntry(view', s, head)
  {
    forall t, h | 0 <= t < PAGE_SIZE && t != s && DirEntry(view, t, h) ensures DirEntry(view', t, h) {
      var d := t / HASH_MAP_DIR_BLOCK_SIZE + 1;
      if d != s / HASH_MAP_DIR_BLOCK_SIZE + 1 {
        assert Same(view, view', d);
      } else {
        assert t % HASH_MAP_DIR_BLOCK_SIZE != s % HASH_MAP_DIR_BLOCK_SIZE;
      }
    }
  }

  lemma EntryOf(view: seq<HPage>, g: Layout, hand: set<int>, s: nat)
    requires MapOk(view, g, hand) && s < PAGE_SIZE
    ensures |g.chains| == PAGE_SIZE && DirEntry(view, s, Head(g.chains[s])) && ChainOk(view, g.chains[s])
    ensures forall a :: a in Addrs(g.chains[s]) <==> a in g.home && g.home[a] == s
    ensures g.chains[s] == [] || Head(g.chains[s]) >= FIRST
  {
    assert ChainOk(view, g.chains[s]);
    assert g.chains[s] != [] ==> LinkOk(view, g.chains[s], 0);
  }

  // ---- blocks

  /** The fields of a block with one more item. */
  function WithItem(p: HPage, addr: int): HPage {
    if p.Block? && 0 <= p.n_items < |p.table| then Block(p.next, p.n_items + 1, p.table[p.n_items := addr]) else p
  }

  lemma ItemAdded(p: HPage, items: seq<int>, addr: int)
    requires Holds(p, items) && |items| < HASH_MAP_BLOCK_SIZE && addr >= 0
    ensures Holds(WithItem(p, addr), items + [addr]) && WithItem(p, addr).Block? && p.Block?
      && WithItem(p, addr).next == p.next
  {
  }

  /** The items after the one at i was overwritten by the last one. */
  ghost function Swapped(items: seq<int>, i: nat): seq<int>
    requires i < |items|
  {
    items[i := items[|items| - 1]][..|items| - 1]
  }

  lemma SwappedCounts(items: seq<int>, i: nat)
    requires i < |items|
    ensures multiset(Swapped(items, i)) + multiset{items[i]} == multiset(items)
  {
    var n := |items| - 1;
    assert items == items[..n] + [items[n]];
    if i < n {
      assert Swapped(items, i) == items[..n][i := items[n]];
      assert multiset(items[..n][i := items[n]]) == multiset(items[..n]) - multiset{items[i]} + multiset{items[n]};
    } else {
      assert Swapped(items, i) == items[..n];
    }
  }

  // ---- a new file

  ghost predicate EmptyDirectory(p: HPage) {
    p.Directory? && |p.directory| == HASH_MAP_DIR_BLOCK_SIZE && forall j :: 0 <= j < HASH_MAP_DIR_BLOCK_SIZE ==>
      p.directory[j] == -1
  }

  ghost function NoChains(): seq<Chain> {
    seq(PAGE_SIZE, s => [])
  }

  lemma EmptyMap(view: seq<HPage>)
    requires |view| == FIRST && view[0].Control? && view[0].free_block_head == -1
    requires forall d :: 0 < d < FIRST ==> EmptyDirectory(view[d])
    ensures MapOk(view, Layout(NoChains(), [], map[]), {}) && Counts(NoChains(), seq(PAGE_SIZE, s => multiset{}))
  {
    forall s | 0 <= s < PAGE_SIZE ensures DirEntry(view, s, -1) {
      assert EmptyDirectory(view[s / HASH_MAP_DIR_BLOCK_SIZE + 1]);
    }
  }

  // ---- pages come and go

  lemma OwnedKept(view: seq<HPage>, g: Layout, hand: set<int>, view': seq<HPage>, hand': set<int>)
    requires MapOk(view, g, hand) && Homes(g, hand', |view'|)
    requires forall a :: a in g.home || 0 <= a < FIRST ==> Same(view, view', a)
    ensures MapOk(view', g, hand')
  {
    hide LinkOk;
    forall s | 0 <= s < PAGE_SIZE ensures DirEntry(view', s, Head(g.chains[s])) && ChainOk(view', g.chains[s]) {
      EntryOf(view, g, hand, s);
      assert Same(view, view', s / HASH_MAP_DIR_BLOCK_SIZE + 1);
      ChainKept(view, g.chains[s], view');
    }
    FreeAddrs(view, g, hand);
    ChainKept(view, g.free, view');
    assert Same(view, view', 0);
  }

  lemma PageAppended(view: seq<HPage>, g: Layout, hand: set<int>, p: HPage)
    requires MapOk(view, g, hand)
    ensures MapOk(view + [p], g, hand + {|view|})
  {
    hide ChainsOk, FreeOk, Directories;
    assert forall a :: 0 <= a < |view| ==> Same(view, view + [p], a);
    OwnedKept(view, g, hand, view + [p], hand + {|view|});
  }

  lemma PageDropped(view: seq<HPage>, g: Layout, hand: set<int>, x: int)
    requires MapOk(view, g, hand) && x in hand && x == |view| - 1
    ensures MapOk(view[..x], g, hand - {x})
  {
    hide ChainsOk, FreeOk, Directories;
    assert forall a :: 0 <= a < x ==> Same(view, view[..x], a);
    OwnedKept(view, g, hand, view[..x], hand - {x});
  }

  // ---- the file outside a session

  /** The first n pages of a closed file hold the map; the pages of `lost` will belong to nothing
      when the file is opened again. */
  ghost predicate HashFileUpTo(file: seq<HPage>, n: nat, g: Layout, buckets: seq<multiset<int>>, lost: set<int>) {
    && n <= |file| && MapOk(file[..n], g, {}) && Counts(g.chains, buckets)
    && lost == Lost(g) + PagesFrom(n, |file|)
  }

  ghost predicate HashFile(file: seq<HPage>, buckets: seq<multiset<int>>, lost: set<int>) {
    exists n, g :: HashFileUpTo(file, n, g, buckets, lost)
  }

  ghost function WithLost(g: Layout, n: nat, length: nat): Layout {
    g.(home := g.home + map a | a in PagesFrom(n, length) :: LOST)
  }

  /** Pages that appear at the end of the file belong to nothing. */
  lemma FileExtended(file: seq<HPage>, n: nat, g: Layout)
    requires n <= |file| && MapOk(file[..n], g, {})
    ensures MapOk(file, WithLost(g, n, |file|), {})
    ensures Lost(WithLost(g, n, |file|)) == Lost(g) + PagesFrom(n, |file|)
  {
    hide LinkOk;
    var view, g' := file[..n], WithLost(g, n, |file|);
    assert forall a :: 0 <= a < n ==> Same(view, file, a);
    forall s | 0 <= s < PAGE_SIZE ensures DirEntry(file, s, Head(g.chains[s])) && ChainOk(file, g.chains[s]) {
      EntryOf(view, g, {}, s);
      ChainKept(view, g.chains[s], file);
    }
    FreeAddrs(view, g, {});
    ChainKept(view, g.free, file);
    HomesExtended(g, n, |file|);
  }

  lemma HomesExtended(g: Layout, n: nat, length: nat)
    requires Homes(g, {}, n) && n <= length
    ensures Homes(WithLost(g, n, length), {}, length)
    ensures Lost(WithLost(g, n, length)) == Lost(g) + PagesFrom(n, length)
  {
    hide Held;
    var g' := WithLost(g, n, length);
    assert forall a :: a in g'.home <==> a in g.home || n <= a < length;
    assert forall a :: a in g.home ==> g'.home[a] == g.home[a];
  }

  // ---- the list of a size

  /** A page in hand becomes the last block of the list, holding one address. */
  lemma BlockLinked(view: seq<HPage>, g: Layout, hand: set<int>, s: nat, x: int, addr: int, p: HPage, view': seq<HPage>)
    requires MapOk(view, g, hand) && s < PAGE_SIZE && x in hand && Holds(p, [addr]) && p.next == -1
    requires |g.chains| == PAGE_SIZE && FIRST <= x < |view|
    requires
      var c := g.chains[s];
      var d := s / HASH_MAP_DIR_BLOCK_SIZE + 1;
      if c == [] then d < |view| && view' == view[d := WithEntry(view[d], s, x)][x := p]
      else
        var a := c[|c| - 1].addr;
        IsBlock(view, a) && view' == view[a := view[a].(next := x)][x := p]
    ensures MapOk(view', Layout(g.chains[s := g.chains[s] + [Link(x, [addr])]], g.free, g.home[x := s]), hand - {x})
    ensures Held(g.chains[s] + [Link(x, [addr])]) == Held(g.chains[s]) + multiset{addr}
  {
    hide Holds, LinkOk, FreeOk, ChainsOk, WithEntry;
    EntryOf(view, g, hand, s);
    var c := g.chains[s];
    assert x !in Addrs(c);
    AddrsAppended(c, Link(x, [addr]));
    HeldAppended(c, Link(x, [addr]));
    assert Head(c + [Link(x, [addr])]) == if c == [] then x else Head(c);
    LinkedPages(view, g, hand, s, x, view');
    ChainAppended(view, c, x, [addr], view');
    if c == [] {
      EntrySet(view, s, -1, x, view');
    } else {
      EntriesKept(view, s, Head(c), view');
    }
    Rechained(view, g, hand, s, c + [Link(x, [addr])], g.home[x := s], hand - {x}, view');
  }

  /** Only the new block, and the directory or the last block before it, are written. */
  lemma LinkedPages(view: seq<HPage>, g: Layout, hand: set<int>, s: nat, x: int, view': seq<HPage>)
    requires MapOk(view, g, hand) && s < PAGE_SIZE && x in hand && |g.chains| == PAGE_SIZE && |view'| == |view|
    requires
      var c := g.chains[s];
      var d := if c == [] then s / HASH_MAP_DIR_BLOCK_SIZE + 1 else c[|c| - 1].addr;
      forall a :: 0 <= a < |view| && a != d && a != x ==> view'[a] == view[a]
    ensures Elsewhere(view, g.home, s, view')
    ensures g.chains[s] != [] ==> SameDirectories(view, view')
    ensures forall j :: 0 <= j < |g.chains[s]| - 1 ==> Same(view, view', g.chains[s][j].addr)
  {
    hide Holds, FreeOk, Directories;
    var c := g.chains[s];
    assert ChainOk(view, c);
    if c != [] {
      assert LinkOk(view, c, |c| - 1) && c[|c| - 1].addr in Addrs(c);
    }
    forall j | 0 <= j < |c| - 1 ensures Same(view, view', c[j].addr) {
      assert c[j].addr in Addrs(c) && c[j].addr != c[|c| - 1].addr && LinkOk(view, c, j);
    }
  }

  /** The file with room for a page at most just past its end. */
  ghost function Extended(view: seq<HPage>, x: int): seq<HPage> {
    if x == |view| then view + [Control(-1, 0, 0)] else view
  }

  /** As BlockLinked, for a page in hand or the next page of the file. */
  lemma BlockAdded(view: seq<HPage>, g: Layout, s: nat, x: int, addr: int, view': seq<HPage>, hand: set<int>)
    requires MapOk(view, g, hand) && s < PAGE_SIZE && FIRST <= x <= |view| && (x < |view| ==> x in hand)
    requires |view'| == |Extended(view, x)| && Holds(view'[x], [addr]) && view'[x].next == -1
    requires |g.chains| == PAGE_SIZE
    requires
      var c := g.chains[s];
      var d := s / HASH_MAP_DIR_BLOCK_SIZE + 1;
      if c == [] then d < |view| && view' == Extended(view, x)[d := WithEntry(view[d], s, x)][x := view'[x]]
      else
        var a := c[|c| - 1].addr;
        IsBlock(view, a) && view' == Extended(view, x)[a := view[a].(next := x)][x := view'[x]]
    ensures MapOk(view', Layout(g.chains[s := g.chains[s] + [Link(x, [addr])]], g.free, g.home[x := s]), hand - {x})
    ensures Held(g.chains[s] + [Link(x, [addr])]) == Held(g.chains[s]) + multiset{addr}
  {
    hide MapOk, Holds, WithEntry;
    if x == |view| {
      PageAppended(view, g, hand, Control(-1, 0, 0));
      assert hand + {x} - {x} == hand - {x};
      BlockLinked(Extended(view, x), g, hand + {x}, s, x, addr, view'[x], view');
    } else {
      BlockLinked(view, g, hand, s, x, addr, view'[x], view');
    }
  }

  /** A block of the list gets other items. */
  lemma BlockChanged(view: seq<HPage>, g: Layout, hand: set<int>, s: nat, i: nat, items: seq<int>, p: HPage)
    requires MapOk(view, g, hand) && s < PAGE_SIZE && |g.chains| == PAGE_SIZE && i < |g.chains[s]|
    requires items != [] && Holds(p, items)
    requires IsBlock(view, g.chains[s][i].addr) && p.next == view[g.chains[s][i].addr].next
    ensures
      var l := Link(g.chains[s][i].addr, items);
      && MapOk(view[l.addr := p], Layout(g.chains[s := g.chains[s][i := l]], g.free, g.home), hand)
      && Held(g.chains[s][i := l]) + multiset(g.chains[s][i].items) == Held(g.chains[s]) + multiset(items)
  {
    hide Holds, FreeOk, ChainsOk;
    EntryOf(view, g, hand, s);
    var c := g.chains[s];
    var l := Link(c[i].addr, items);
    var view' := view[l.addr := p];
    assert LinkOk(view, c, i) && l.addr in Addrs(c);
    AddrsUpdate(c, i, l);
    HeldUpdate(c, i, l);
    ChainUpdated(view, c, i, items, p);
    EntriesKept(view, s, Head(c), view');
    Rechained(view, g, hand, s, c[i := l], g.home, hand, view');
  }

  /** A block that held only one address is unlinked and comes to hand. */
  lemma BlockUnlinked(view: seq<HPage>, g: Layout, hand: set<int>, s: nat, i: nat, p: HPage, view': seq<HPage>)
    requires MapOk(view, g, hand) && s < PAGE_SIZE && |g.chains| == PAGE_SIZE && i < |g.chains[s]|
    requires IsBlock(view, g.chains[s][i].addr)
    requires
      var c := g.chains[s];
      var x := c[i].addr;
      var d := s / HASH_MAP_DIR_BLOCK_SIZE + 1;
      if i == 0 then d < |view| && view' == view[d := WithEntry(view[d], s, view[x].next)][x := p]
      else
        var a := c[i - 1].addr;
        IsBlock(view, a) && view' == view[a := view[a].(next := view[x].next)][x := p]
    ensures
      var c := g.chains[s];
      && MapOk(view', Layout(g.chains[s := Removed(c, i)], g.free, g.home - {c[i].addr}), hand + {c[i].addr})
      && Held(c) == Held(Removed(c, i)) + multiset(c[i].items)
  {
    hide Holds, LinkOk, FreeOk, ChainsOk, WithEntry, Directories, Homes, Rehomed;
    EntryOf(view, g, hand, s);
    var c := g.chains[s];
    HeldRemoved(c, i);
    UnlinkedPages(view, g, hand, s, i, view');
    ChainUnlinked(view, c, i, view');
    if i == 0 {
      EntrySet(view, s, Head(c), view[c[0].addr].next, view');
    } else {
      EntriesKept(view, s, Head(c), view');
    }
    Unhomed(view, g, hand, s, i);
    Rechained(view, g, hand, s, Removed(c, i), g.home - {c[i].addr}, hand + {c[i].addr}, view');
  }

  lemma Unhomed(view: seq<HPage>, g: Layout, hand: set<int>, s: nat, i: nat)
    requires Homes(g, hand, |view|) && s < PAGE_SIZE && i < |g.chains[s]| && Different(g.chains[s])
    ensures
      var x := g.chains[s][i].addr;
      && Rehomed(g.home, s, g.home - {x}, Addrs(Removed(g.chains[s], i)))
      && (forall a :: a in g.home - {x} || a in hand + {x} ==> FIRST <= a < |view|)
      && (g.home - {x}).Keys !! (hand + {x}) && forall a :: FIRST <= a < |view| ==> a in g.home - {x} || a in hand + {x}
  {
    AddrsRemoved(g.chains[s], i);
    assert g.chains[s][i].addr in Addrs(g.chains[s]);
  }

  lemma UnlinkedPages(view: seq<HPage>, g: Layout, hand: set<int>, s: nat, i: nat, view': seq<HPage>)
    requires MapOk(view, g, hand) && s < PAGE_SIZE && |g.chains| == PAGE_SIZE && i < |g.chains[s]| && |view'| == |view|
    requires
      var c := g.chains[s];
      var d := if i == 0 then s / HASH_MAP_DIR_BLOCK_SIZE + 1 else c[i - 1].addr;
      forall a :: 0 <= a < |view| && a != d && a != c[i].addr ==> view'[a] == view[a]
    ensures Elsewhere(view, g.home, s, view') && FIRST <= g.chains[s][i].addr
    ensures forall d :: 0 < d < FIRST && (i == 0 ==> d != s / HASH_MAP_DIR_BLOCK_SIZE + 1) ==> Same(view, view', d)
    ensures forall j :: 0 <= j < |g.chains[s]| && j != i && j != i - 1 ==> Same(view, view', g.chains[s][j].addr)
    ensures i > 0 ==> g.chains[s][i - 1].addr != g.chains[s][i].addr
  {
    hide Holds, FreeOk, Directories;
    var c := g.chains[s];
    assert ChainOk(view, c) && LinkOk(view, c, i) && c[i].addr in Addrs(c);
    if i > 0 {
      assert LinkOk(view, c, i - 1) && c[i - 1].addr in Addrs(c) && c[i - 1].addr != c[i].addr;
    }
    forall j | 0 <= j < |c| && j != i && j != i - 1 ensures Same(view, view', c[j].addr) {
      assert LinkOk(view, c, j);
      assert if j < i then c[j].addr != c[i].addr else c[i].addr != c[j].addr;
      assert i > 0 ==> if j < i - 1 then c[j].addr != c[i - 1].addr else c[i - 1].addr != c[j].addr;
    }
  }

  /** Block i of the list of a size, with the page that points to it. */
  ghost predicate At(view: seq<HPage>, chains: seq<Chain>, size: nat, i: nat, before: int, now: int) {
    && size < PAGE_SIZE && |chains| == PAGE_SIZE && i < |chains[size]|
    && var c := chains[size];
       && now == c[i].addr && FIRST <= now && IsBlock(view, now) && Holds(view[now], c[i].items) && c[i].items != []
       && 0 < before < |view| && before != now
       && if i == 0 then before == size / HASH_MAP_DIR_BLOCK_SIZE + 1
          else before == c[i - 1].addr && FIRST <= before && IsBlock(view, before)
  }

  lemma AtFacts(view: seq<HPage>, chains: seq<Chain>, size: nat, i: nat, before: int, now: int)
    requires At(view, chains, size, i, before, now)
    ensures |chains| == PAGE_SIZE && i < |chains[size]| && IsBlock(view, now) && Holds(view[now], chains[size][i].items)
    ensures view[now].n_items == |chains[size][i].items|
    ensures 0 < before < |view| && FIRST <= now && before != now && (i == 0 <==> before < FIRST)
  {
  }

  lemma FirstAt(view: seq<HPage>, g: Layout, size: nat, before: int, now: int)
    requires MapOk(view, g, {}) && size < PAGE_SIZE && g.chains[size] != []
    requires before == size / HASH_MAP_DIR_BLOCK_SIZE + 1 && now == g.chains[size][0].addr
    ensures At(view, g.chains, size, 0, before, now)
  {
    assert ChainOk(view, g.chains[size]) && LinkOk(view, g.chains[size], 0);
  }

  lemma NextAt(view: seq<HPage>, g: Layout, size: nat, i: nat, before: int, now: int)
    requires MapOk(view, g, {}) && At(view, g.chains, size, i, before, now) && view[now].next >= 0
    ensures i + 1 < |g.chains[size]| && At(view, g.chains, size, i + 1, now, view[now].next)
  {
    var c := g.chains[size];
    assert ChainOk(view, c) && LinkOk(view, c, i);
    assert c[i + 1..] != [] && LinkOk(view, c, i + 1);
    assert c[i].addr != c[i + 1].addr;
  }

  /** The search of the list for an address cannot end without finding it if it is there. */
  lemma Located(view: seq<HPage>, g: Layout, size: nat, addr: int, i: nat, before: int, now: int, k: nat)
    requires MapOk(view, g, {}) && At(view, g.chains, size, i, before, now) && addr in Held(g.chains[size])
    requires forall j :: 0 <= j < i ==> addr !in g.chains[size][j].items
    requires k == |g.chains[size][i].items| ==> addr !in g.chains[size][i].items && view[now].next < 0
    ensures k != |g.chains[size][i].items|
  {
    var c := g.chains[size];
    assert ChainOk(view, c) && LinkOk(view, c, i);
    assert i + 1 < |c| ==> LinkOk(view, c, i + 1);
    if addr !in c[i].items && view[now].next < 0 {
      assert i == |c| - 1;
      HeldOnlyBy(c, addr);
    }
  }

  lemma LastOfFirst(view: seq<HPage>, chains: seq<Chain>, size: nat, before: int, now: int)
    requires At(view, chains, size, 0, before, now)
    ensures
      var mp, items := view[now], chains[size][0].items;
      && mp.Block? && 1 <= mp.n_items == |items| <= |mp.table| && mp.table[mp.n_items - 1] == items[|items| - 1] >= 0
      && items[|items| - 1] in Held(chains[size])
  {
    HeldMember(chains[size], 0, |chains[size][0].items| - 1);
  }
}
