/** The chunked free list of the free-space map: its blocks are free pages themselves. */
module HashFree {
  import opened Common
  import opened HashChains
  import opened HashSteps

  /** The control page with another first block. */
  function WithHead(p: HPage, head: int): HPage {
    if p.Control? then p.(free_block_head := head) else p
  }

  /** A block with its last item wiped out; an emptied block also loses its successor. */
  function WithoutLast(p: HPage): HPage {
    if p.Block? && 1 <= p.n_items <= |p.table|
    then Block(if p.n_items == 1 then -1 else p.next, p.n_items - 1, p.table[p.n_items - 1 := -1]) else p
  }

  lemma LastWiped(p: HPage, items: seq<int>)
    requires Holds(p, items) && items != []
    ensures Holds(WithoutLast(p), items[..|items| - 1]) && p.Block?
      && (|items| > 1 ==> WithoutLast(p).Block? && WithoutLast(p).next == p.next)
  {
  }

  ghost function Listed(free: Chain): set<int> {
    set a | a in Held(free)
  }

  // ---- taking a page from the list

  /** What get_new_hash_block leaves of the list: the last page listed in its first block is
      taken, which is that block itself when it lists no other. */
  ghost function Taken(free: Chain): Chain {
    if free == [] || free[0].items == [] then free else
    var n := |free[0].items|;
    if n == 1 then free[1..] else free[0 := Link(free[0].addr, free[0].items[..n - 1])]
  }

  /** The last item of the first block, -1 if there is none: the page that get_new_hash_block takes,
      and the address that hash_table_pop_lower_bound takes from the list of a size. */
  ghost function TopItem(free: Chain): int {
    if free == [] || free[0].items == [] then -1 else free[0].items[|free[0].items| - 1]
  }

  lemma NoneTaken()
    ensures Taken([]) == [] && TopItem([]) == -1
  {
  }

  lemma TakenHeld(free: Chain)
    requires free != [] && free[0].items != []
    ensures
      var items := free[0].items;
      Held(free) == Held(Taken(free)) + multiset{items[|items| - 1]}
  {
    var items := free[0].items;
    var x := items[|items| - 1];
    assert items == items[..|items| - 1] + [x];
    if |items| == 1 {
      HeldRemoved(free, 0);
      assert Removed(free, 0) == free[1..];
    } else {
      HeldUpdate(free, 0, Link(free[0].addr, items[..|items| - 1]));
    }
  }

  ghost predicate TakeSeen(view: seq<HPage>, free: Chain, view': seq<HPage>) {
    && free != [] && free[0].items != [] && IsBlock(view, free[0].addr)
    && var h := free[0].addr;
       var head := if |free[0].items| == 1 then view[h].next else h;
       view' == view[h := WithoutLast(view[h])][0 := WithHead(view[0], head)]
  }

  lemma TakenChain(view: seq<HPage>, free: Chain, view': seq<HPage>)
    requires ChainOk(view, free) && view != [] && TakeSeen(view, free, view')
    ensures ChainOk(view', Taken(free))
  {
    hide Holds;
    var h, items := free[0].addr, free[0].items;
    assert LinkOk(view, free, 0);
    LastWiped(view[h], items);
    if |items| == 1 {
      assert forall j :: 0 < j < |free| ==> LinkOk(view, free, j) && free[j].addr != h;
      ChainUnlinked(view, free, 0, view');
      assert Removed(free, 0) == free[1..];
    } else {
      var v1 := view[h := WithoutLast(view[h])];
      ChainUpdated(view, free, 0, items[..|items| - 1], WithoutLast(view[h]));
      ControlOnly(v1, Taken(free), view');
    }
  }

  /** Lists do not contain the control page. */
  lemma ControlOnly(view: seq<HPage>, c: Chain, view': seq<HPage>)
    requires ChainOk(view, c) && view != [] && |view'| == |view| && view' == view[0 := view'[0]]
    ensures ChainOk(view', c)
  {
    hide Holds;
    forall j | 0 <= j < |c| ensures Same(view, view', c[j].addr) {
      assert LinkOk(view, c, j);
    }
    ChainKept(view, c, view');
  }

  lemma TakenSelf(view: seq<HPage>, free: Chain, view': seq<HPage>)
    requires FreeOk(view, free) && TakeSeen(view, free, view')
    ensures view'[0].Control? && view'[0].free_block_head == Head(Taken(free))
    ensures forall i :: 0 <= i < |Taken(free)| ==>
      |Taken(free)[i].items| > 0 && Taken(free)[i].items[0] == Taken(free)[i].addr
  {
    assert LinkOk(view, free, 0);
    if |free[0].items| > 1 {
      var c1 := Taken(free);
      assert forall j :: 1 <= j < |c1| ==> c1[j] == free[j];
      assert c1[0].items[0] == free[0].items[0];
    }
  }

  /** Only the control page and the first block of the list are written. */
  lemma TakenPages(view: seq<HPage>, g: Layout, hand: set<int>, view': seq<HPage>)
    requires MapOk(view, g, hand) && TakeSeen(view, g.free, view')
    ensures |view| == |view'| && SameDirectories(view, view')
    ensures forall a :: a in g.home && g.home[a] != FREE ==> Same(view, view', a)
  {
    hide Held, Holds, LinkOk, Directories, ChainsOk;
    FreeAddrs(view, g, hand);
    assert g.free[0].addr in Addrs(g.free);
  }

  lemma FreeTaken(view: seq<HPage>, g: Layout, hand: set<int>, view': seq<HPage>)
    requires MapOk(view, g, hand) && TakeSeen(view, g.free, view')
    ensures
      var x := g.free[0].items[|g.free[0].items| - 1];
      && x in g.home && g.home[x] == FREE && x !in hand
      && MapOk(view', Layout(g.chains, Taken(g.free), g.home - {x}), hand + {x})
    ensures SameDirectories(view, view')
  {
    hide LinkOk, ChainsOk, Directories, Homes, Rehomed, ChainOk, Taken, Same;
    var free := g.free;
    var x := free[0].items[|free[0].items| - 1];
    TakenHeld(free);
    HeldMember(free, 0, |free[0].items| - 1);
    TakenChain(view, free, view');
    TakenSelf(view, free, view');
    TakenPages(view, g, hand, view');
    TakenHome(view, g, hand, x);
    Refreed(view, g, hand, Taken(free), g.home - {x}, hand + {x}, view');
  }

  lemma TakenHome(view: seq<HPage>, g: Layout, hand: set<int>, x: int)
    requires Homes(g, hand, |view|) && g.free != [] && g.free[0].items != [] && x in Held(g.free)
    requires Held(g.free) == Held(Taken(g.free)) + multiset{x} && forall a :: Held(g.free)[a] <= 1
    ensures x in g.home && g.home[x] == FREE && x !in hand && (forall a :: Held(Taken(g.free))[a] <= 1)
    ensures Rehomed(g.home, FREE, g.home - {x}, Listed(Taken(g.free)))
    ensures forall a :: a in g.home - {x} || a in hand + {x} ==> FIRST <= a < |view|
    ensures (g.home - {x}).Keys !! (hand + {x}) && forall a :: FIRST <= a < |view| ==>
      a in g.home - {x} || a in hand + {x}
    ensures forall a :: a in g.home && g.home[a] != FREE ==> FIRST <= a < |view|
  {
    var kept := Held(Taken(g.free));
    assert kept[x] == 0;
    forall a ensures kept[a] <= 1 && (a in kept <==> a in Held(g.free) && a != x) {
      assert kept[a] <= Held(g.free)[a];
    }
  }

  // ---- giving a page back

  /** The first block of a list that has room for one more item, or the length of the list. */
  ghost function FirstRoom(c: Chain): (i: nat)
    ensures i <= |c|
  {
    if c == [] || |c[0].items| < HASH_MAP_BLOCK_SIZE then 0 else 1 + FirstRoom(c[1..])
  }

  lemma {:induction false} FirstRoomFacts(c: Chain)
    ensures FirstRoom(c) < |c| ==> |c[FirstRoom(c)].items| < HASH_MAP_BLOCK_SIZE
    ensures forall j :: 0 <= j < FirstRoom(c) ==> |c[j].items| >= HASH_MAP_BLOCK_SIZE
  {
    if c != [] && |c[0].items| >= HASH_MAP_BLOCK_SIZE {
      FirstRoomFacts(c[1..]);
      forall j | 0 < j < FirstRoom(c) ensures |c[j].items| >= HASH_MAP_BLOCK_SIZE {
        assert c[j] == c[1..][j - 1];
      }
    }
  }

  lemma RoomInNone()
    ensures FirstRoom([]) == 0
  {
  }

  /** One step of the walk to that block. */
  lemma RoomStep(c: Chain, i: nat)
    requires i < |c| && FirstRoom(c) >= i
    ensures |c[i].items| < HASH_MAP_BLOCK_SIZE ==> FirstRoom(c) == i
    ensures |c[i].items| >= HASH_MAP_BLOCK_SIZE ==> FirstRoom(c) > i
  {
    FirstRoomFacts(c);
  }

  /** A page that lists only itself. */
  ghost predicate Alone(p: HPage, x: int) {
    Holds(p, [x]) && p.next == -1
  }

  /** The list after release_new_hash_block: the page is listed in block i, or becomes the
      last block and lists itself. */
  ghost function Given(free: Chain, i: nat, x: int): Chain
    requires i <= |free|
  {
    if i < |free| then free[i := Link(free[i].addr, free[i].items + [x])] else free + [Link(x, [x])]
  }

  lemma Cancel(a': multiset<int>, b: multiset<int>, a: multiset<int>, x: multiset<int>)
    requires a' + b == a + (b + x)
    ensures a' == a + x
  {
    forall y ensures a'[y] == (a + x)[y] {
      assert (a' + b)[y] == (a + (b + x))[y];
    }
  }

  lemma GivenHeld(free: Chain, i: nat, x: int)
    requires i <= |free|
    ensures Held(Given(free, i, x)) == Held(free) + multiset{x}
  {
    if i < |free| {
      var l := Link(free[i].addr, free[i].items + [x]);
      HeldUpdate(free, i, l);
      Cancel(Held(Given(free, i, x)), multiset(free[i].items), Held(free), multiset{x});
    } else {
      HeldAppended(free, Link(x, [x]));
    }
  }

  ghost predicate GiveSeen(view: seq<HPage>, free: Chain, i: nat, x: int, view': seq<HPage>) {
    && FIRST <= x < |view| && i <= |free|
    && if i < |free| then
         && IsBlock(view, free[i].addr) && |free[i].items| < HASH_MAP_BLOCK_SIZE
         && view' == view[free[i].addr := WithItem(view[free[i].addr], x)]
       else
         && |view'| == |view| && Alone(view'[x], x)
         && if free == [] then view' == view[0 := WithHead(view[0], x)][x := view'[x]]
            else
              var a := free[|free| - 1].addr;
              IsBlock(view, a) && view' == view[a := view[a].(next := x)][x := view'[x]]
  }

  lemma GivenChain(view: seq<HPage>, free: Chain, i: nat, x: int, view': seq<HPage>)
    requires FreeOk(view, free) && x !in Held(free) && GiveSeen(view, free, i, x, view')
    ensures ChainOk(view', Given(free, i, x))
  {
    hide Holds;
    if i < |free| {
      assert LinkOk(view, free, i);
      ItemAdded(view[free[i].addr], free[i].items, x);
      ChainUpdated(view, free, i, free[i].items + [x], WithItem(view[free[i].addr], x));
    } else {
      forall j | 0 <= j < |free| ensures free[j].addr != x && LinkOk(view, free, j) {
        HeldMember(free, j, 0);
      }
      assert forall j :: 0 <= j < |free| - 1 ==> free[j].addr != free[|free| - 1].addr;
      ChainAppended(view, free, x, [x], view');
    }
  }

  lemma GivenSelf(view: seq<HPage>, free: Chain, i: nat, x: int, view': seq<HPage>)
    requires FreeOk(view, free) && GiveSeen(view, free, i, x, view')
    ensures view'[0].Control? && view'[0].free_block_head == Head(Given(free, i, x))
    ensures forall j :: 0 <= j < |Given(free, i, x)| ==>
      |Given(free, i, x)[j].items| > 0 && Given(free, i, x)[j].items[0] == Given(free, i, x)[j].addr
  {
    hide Holds;
    var c := Given(free, i, x);
    if i < |free| {
      assert LinkOk(view, free, i);
    } else if free != [] {
      assert LinkOk(view, free, |free| - 1);
    }
    forall j | 0 <= j < |c| ensures |c[j].items| > 0 && c[j].items[0] == c[j].addr {
      assert j < |free| ==> |free[j].items| > 0 && free[j].items[0] == free[j].addr;
    }
  }

  lemma GivenPages(view: seq<HPage>, g: Layout, hand: set<int>, i: nat, x: int, view': seq<HPage>)
    requires MapOk(view, g, hand) && x in hand && GiveSeen(view, g.free, i, x, view')
    ensures |view| == |view'| && SameDirectories(view, view')
    ensures forall a :: a in g.home && g.home[a] != FREE ==> Same(view, view', a)
  {
    hide Held, Holds, LinkOk, Directories, ChainsOk;
    FreeAddrs(view, g, hand);
    assert forall j :: 0 <= j < |g.free| ==> g.free[j].addr in Addrs(g.free);
  }

  lemma GivenHome(view: seq<HPage>, g: Layout, hand: set<int>, i: nat, x: int)
    requires Homes(g, hand, |view|) && x in hand && i <= |g.free| && forall a :: Held(g.free)[a] <= 1
    ensures x !in Held(g.free)
    ensures forall a :: Held(Given(g.free, i, x))[a] <= 1
    ensures Rehomed(g.home, FREE, g.home[x := FREE], Listed(Given(g.free, i, x)))
    ensures forall a :: a in g.home[x := FREE] || a in hand - {x} ==> FIRST <= a < |view|
    ensures g.home[x := FREE].Keys !! (hand - {x})
    ensures forall a :: FIRST <= a < |view| ==> a in g.home[x := FREE] || a in hand - {x}
  {
    hide Given, Held, Addrs;
    GivenHeld(g.free, i, x);
    OneMore(Held(g.free), x, Held(Given(g.free, i, x)));
  }

  lemma OneMore(h: multiset<int>, x: int, h': multiset<int>)
    requires h' == h + multiset{x} && (forall a :: h[a] <= 1) && x !in h
    ensures forall a :: h'[a] <= 1 && (a in h' <==> a in h || a == x)
  {
    forall a ensures h'[a] <= 1 && (a in h' <==> a in h || a == x) {
      assert h'[a] == h[a] + if a == x then 1 else 0;
    }
  }

  lemma FreeGiven(view: seq<HPage>, g: Layout, hand: set<int>, i: nat, x: int, view': seq<HPage>)
    requires MapOk(view, g, hand) && x in hand && GiveSeen(view, g.free, i, x, view')
    ensures MapOk(view', Layout(g.chains, Given(g.free, i, x), g.home[x := FREE]), hand - {x})
  {
    hide LinkOk, ChainsOk, Directories, Homes, Rehomed, ChainOk, Given, Same;
    GivenHome(view, g, hand, i, x);
    GivenChain(view, g.free, i, x, view');
    GivenSelf(view, g.free, i, x, view');
    GivenPages(view, g, hand, i, x, view');
    Refreed(view, g, hand, Given(g.free, i, x), g.home[x := FREE], hand - {x}, view');
  }

  // ---- what the operations of the map leave

  /** After hash_table_insert: the address is behind those of the first block with room, or in a
      new last block.  The new block is the page that get_new_hash_block hands out or, if it has
      none, one more page of the file. */
  ghost predicate AddrFiled(g: Layout, len: nat, size: nat, addr: int, g': Layout, len': nat) {
    && size < |g.chains|
    && var c, i := g.chains[size], FirstRoom(g.chains[size]);
       if i < |c| then
         && len' == len
         && g' == Layout(g.chains[size := c[i := Link(c[i].addr, c[i].items + [addr])]], g.free, g.home)
       else
         var x := if g.free == [] then len else TopItem(g.free);
         && len' == (if g.free == [] then len + 1 else len)
         && g' == Layout(g.chains[size := c + [Link(x, [addr])]], Taken(g.free), g.home[x := size])
  }

  /** A new last block, after get_new_hash_block left the layout g1. */
  lemma FiledInNew(g: Layout, len: nat, size: nat, addr: int, g1: Layout, x: int, g': Layout, len': nat)
    requires size < |g.chains| && FirstRoom(g.chains[size]) == |g.chains[size]| && -1 !in g.home
    requires g1 == Layout(g.chains, Taken(g.free), g.home - {TopItem(g.free)})
    requires g.free == [] <==> TopItem(g.free) == -1
    requires x == if g.free == [] then len else TopItem(g.free)
    requires g' == Layout(g.chains[size := g.chains[size] + [Link(x, [addr])]], g1.free, g1.home[x := size])
    requires len' == if g.free == [] then len + 1 else len
    ensures AddrFiled(g, len, size, addr, g', len')
  {
    hide FirstRoom, Taken;
  }

  /** Where the walk of hash_table_pop finds the address first. */
  ghost predicate FirstPlace(c: Chain, addr: int, i: nat, k: nat) {
    && i < |c| && k < |c[i].items| && c[i].items[k] == addr
    && (forall j :: 0 <= j < i ==> addr !in c[j].items) && addr !in c[i].items[..k]
  }

  /** After the removal of item k of block i: the last item of the block fills the gap.  An
      emptied block leaves the list; the file is cut off before it if it is the last page, and
      otherwise it is listed by the first block of the free list with room, or by itself. */
  ghost predicate AddrUnfiled(g: Layout, len: nat, size: nat, i: nat, k: nat, g': Layout, len': nat) {
    && size < |g.chains| && i < |g.chains[size]| && k < |g.chains[size][i].items|
    && var c, x := g.chains[size], g.chains[size][i].addr;
       if |c[i].items| > 1 then
         && len' == len
         && g' == Layout(g.chains[size := c[i := Link(x, Swapped(c[i].items, k))]], g.free, g.home)
       else if x == len - 1 then
         len' == len - 1 && g' == Layout(g.chains[size := Removed(c, i)], g.free, g.home - {x})
       else
         && len' == len
         && g' == Layout(g.chains[size := Removed(c, i)], Given(g.free, FirstRoom(g.free), x), g.home[x := FREE])
  }
}
