/** The pages of the free-space map (include/hash_map.h) and the linked lists they form. */
module HashChains {
  import opened Common

  const HASH_MAP_DIR_BLOCK_SIZE := 16
  const HASH_MAP_BLOCK_SIZE := 13

  /** PAGE_SIZE / HASH_MAP_DIR_BLOCK_SIZE */
  const DIRECTORIES := 8

  /** The first page after the control page and the directories. */
  const FIRST := DIRECTORIES + 1

  /** The directories have one entry for every size. */
  lemma DirectorySizes()
    ensures DIRECTORIES * HASH_MAP_DIR_BLOCK_SIZE == PAGE_SIZE
  {
  }

  /** The owner of the pages on the free list; those below are the sizes. */
  const FREE := PAGE_SIZE

  /** The owner of pages that belong to nothing: those that came back with the file although they
      had been cut off before it was closed, and the one past the directories if an unsuccessful
      hash_table_pop_lower_bound appended it. */
  const LOST := FREE + 1

  datatype HPage =
    | Control(free_block_head: int, n_directory_blocks: int, max_size: int)
    | Directory(directory: seq<int>)
    | Block(next: int, n_items: int, table: seq<int>)

  /** One block of a list: where it is and what its table holds. */
  datatype Link = Link(addr: int, items: seq<int>)

  type Chain = seq<Link>

  ghost predicate Holds(p: HPage, items: seq<int>) {
    && p.Block? && p.n_items == |items| <= HASH_MAP_BLOCK_SIZE && |p.table| == HASH_MAP_BLOCK_SIZE
    && (forall k :: 0 <= k < |items| ==> p.table[k] == items[k] && items[k] >= 0)
    && (forall k :: |items| <= k < HASH_MAP_BLOCK_SIZE ==> p.table[k] == -1)
  }

  ghost predicate Same(view: seq<HPage>, view': seq<HPage>, a: int) {
    0 <= a < |view| && a < |view'| && view'[a] == view[a]
  }

  ghost predicate IsBlock(view: seq<HPage>, a: int) {
    0 <= a < |view| && view[a].Block?
  }

  function Head(c: Chain): int {
    if c == [] then -1 else c[0].addr
  }

  ghost predicate LinkOk(view: seq<HPage>, c: Chain, i: int)
    requires 0 <= i < |c|
  {
    && FIRST <= c[i].addr < |view| && c[i].items != []
    && Holds(view[c[i].addr], c[i].items)
    && view[c[i].addr].next == Head(c[i + 1..])
  }

  ghost predicate Different(c: Chain) {
    forall i, j :: 0 <= i < j < |c| ==> c[i].addr != c[j].addr
  }

  ghost predicate ChainOk(view: seq<HPage>, c: Chain) {
    (forall i :: 0 <= i < |c| ==> LinkOk(view, c, i)) && Different(c)
  }

  ghost function Addrs(c: Chain): set<int> {
    set i | 0 <= i < |c| :: c[i].addr
  }

  ghost function Held(c: Chain): multiset<int> {
    if c == [] then multiset{} else multiset(c[0].items) + Held(c[1..])
  }

  // ---- what a change of a list does to what it holds

  lemma {:induction false} HeldConcat(a: Chain, b: Chain)
    ensures Held(a + b) == Held(a) + Held(b)
  {
    if a == [] {
      assert a + b == b;
    } else {
      assert (a + b)[1..] == a[1..] + b;
      var x, y, z := multiset(a[0].items), Held(a[1..]), Held(b);
      assert Held(a + b) == x + (y + z) by { HeldConcat(a[1..], b); }
      assert x + (y + z) == (x + y) + z;
    }
  }

  lemma HeldAround(c: Chain, i: nat)
    requires i < |c|
    ensures Held(c) == Held(c[..i]) + multiset(c[i].items) + Held(c[i + 1..])
  {
    HeldConcat(c[..i], c[i..]);
    assert c == c[..i] + c[i..] && c[i..][1..] == c[i + 1..];
  }

  lemma HeldUpdate(c: Chain, i: nat, l: Link)
    requires i < |c|
    ensures Held(c[i := l]) + multiset(c[i].items) == Held(c) + multiset(l.items)
  {
    HeldAround(c, i);
    HeldAround(c[i := l], i);
    assert c[i := l][..i] == c[..i] && c[i := l][i + 1..] == c[i + 1..];
  }

  lemma HeldRemoved(c: Chain, i: nat)
    requires i < |c|
    ensures Held(c) == Held(Removed(c, i)) + multiset(c[i].items)
  {
    HeldAround(c, i);
    HeldConcat(c[..i], c[i + 1..]);
  }

  lemma HeldAppended(c: Chain, l: Link)
    ensures Held(c + [l]) == Held(c) + multiset(l.items)
  {
    HeldConcat(c, [l]);
    assert [l][1..] == [];
  }

  lemma HeldMember(c: Chain, i: nat, k: nat)
    requires i < |c| && k < |c[i].items|
    ensures c[i].items[k] in Held(c)
  {
    HeldAround(c, i);
  }

  lemma {:induction false} HeldOnlyBy(c: Chain, x: int)
    requires forall i :: 0 <= i < |c| ==> x !in c[i].items
    ensures x !in Held(c)
  {
    if c != [] {
      assert x !in c[0].items;
      forall i | 0 <= i < |c[1..]| ensures x !in c[1..][i].items {
        assert c[1..][i] == c[i + 1];
      }
      HeldOnlyBy(c[1..], x);
    }
  }

  lemma AddrsUpdate(c: Chain, i: nat, l: Link)
    requires i < |c| && l.addr == c[i].addr
    ensures Addrs(c[i := l]) == Addrs(c)
  {
    var c' := c[i := l];
    assert forall j :: 0 <= j < |c| ==> c'[j].addr == c[j].addr;
  }

  lemma AddrsRemoved(c: Chain, i: nat)
    requires i < |c| && Different(c)
    ensures Addrs(Removed(c, i)) == Addrs(c) - {c[i].addr} && Different(Removed(c, i))
  {
    var c' := Removed(c, i);
    DeleteAt(c, i);
    forall j | 0 <= j < |c| && j != i ensures c[j].addr in Addrs(c') && c[j].addr != c[i].addr {
      assert c'[if j < i then j else j - 1] == c[j];
    }
  }

  lemma AddrsAppended(c: Chain, l: Link)
    ensures Addrs(c + [l]) == Addrs(c) + {l.addr}
    ensures Different(c) && l.addr !in Addrs(c) ==> Different(c + [l])
  {
    var c' := c + [l];
    assert c'[|c|] == l && forall j :: 0 <= j < |c| ==> c'[j] == c[j];
  }

  // ---- the four ways a list changes, on its own pages

  lemma ChainKept(view: seq<HPage>, c: Chain, view': seq<HPage>)
    requires ChainOk(view, c)
    requires forall a :: a in Addrs(c) ==> Same(view, view', a)
    ensures ChainOk(view', c)
  {
    forall i | 0 <= i < |c| ensures LinkOk(view', c, i) {
      assert LinkOk(view, c, i) && c[i].addr in Addrs(c);
    }
  }

  /** A block gets another content. */
  lemma ChainUpdated(view: seq<HPage>, c: Chain, i: nat, items: seq<int>, p: HPage)
    requires ChainOk(view, c) && i < |c| && items != [] && Holds(p, items)
    requires IsBlock(view, c[i].addr) && p.next == view[c[i].addr].next
    ensures ChainOk(view[c[i].addr := p], c[i := Link(c[i].addr, items)])
  {
    hide Holds;
    var view', c' := view[c[i].addr := p], c[i := Link(c[i].addr, items)];
    forall j | 0 <= j < |c| ensures LinkOk(view', c', j) {
      assert LinkOk(view, c, j);
      assert j + 1 < |c| ==> c'[j + 1].addr == c[j + 1].addr;
    }
  }

  /** A block is unlinked: its predecessor, if it has one, gets its successor. */
  lemma ChainUnlinked(view: seq<HPage>, c: Chain, i: nat, view': seq<HPage>)
    requires ChainOk(view, c) && i < |c|
    requires forall j :: 0 <= j < |c| && j != i && j != i - 1 ==> Same(view, view', c[j].addr)
    requires i > 0 ==>
      && IsBlock(view, c[i - 1].addr) && IsBlock(view, c[i].addr) && c[i - 1].addr < |view'|
      && view'[c[i - 1].addr] == view[c[i - 1].addr].(next := view[c[i].addr].next)
    ensures ChainOk(view', Removed(c, i))
    ensures i == 0 && IsBlock(view, c[0].addr) ==> Head(Removed(c, 0)) == view[c[0].addr].next
    ensures i > 0 ==> Head(Removed(c, i)) == Head(c)
  {
    AddrsRemoved(c, i);
    DeleteAt(c, i);
    var c' := Removed(c, i);
    assert LinkOk(view, c, i);
    forall j | 0 <= j < |c'| ensures LinkOk(view', c', j) {
      var k := if j < i then j else j + 1;
      assert LinkOk(view, c, k) && c'[j] == c[k];
      assert k != i - 1 ==> view'[c[k].addr] == view[c[k].addr];
      assert Head(c'[j + 1..]) == Head(if j == i - 1 then c[i + 1..] else c[k + 1..]);
    }
  }

  /** A new last block. */
  lemma ChainAppended(view: seq<HPage>, c: Chain, x: int, items: seq<int>, view': seq<HPage>)
    requires ChainOk(view, c) && FIRST <= x < |view'| && x !in Addrs(c)
    requires items != [] && Holds(view'[x], items) && view'[x].next == -1
    requires forall j :: 0 <= j < |c| - 1 ==> Same(view, view', c[j].addr)
    requires c != [] ==>
      var a := c[|c| - 1].addr;
      IsBlock(view, a) && a < |view'| && view'[a] == view[a].(next := x)
    ensures ChainOk(view', c + [Link(x, items)])
  {
    hide Holds;
    AddrsAppended(c, Link(x, items));
    var c' := c + [Link(x, items)];
    forall j | 0 <= j < |c'| ensures LinkOk(view', c', j) {
      if j < |c| {
        assert LinkOk(view, c, j) && c'[j] == c[j];
        if j + 1 < |c| {
          assert c'[j + 1..][0] == c[j + 1..][0];
        } else {
          assert c'[j + 1..][0] == c'[|c|];
          NextOnly(view[c[j].addr], c[j].items, x);
        }
      }
    }
  }

  lemma NextOnly(p: HPage, items: seq<int>, x: int)
    requires Holds(p, items)
    ensures Holds(p.(next := x), items)
  {
  }

  // ---- the whole file

  /** Where every page past the directories belongs: to the list of a size, or to the free
      list, as a block of that list or only by being listed in one. */
  datatype Layout = Layout(chains: seq<Chain>, free: Chain, home: map<int, int>)

  ghost predicate DirEntry(view: seq<HPage>, s: nat, head: int)
    requires s < PAGE_SIZE
  {
    var d := s / HASH_MAP_DIR_BLOCK_SIZE + 1;
    && d < |view| && view[d].Directory? && |view[d].directory| == HASH_MAP_DIR_BLOCK_SIZE
    && view[d].directory[s % HASH_MAP_DIR_BLOCK_SIZE] == head
  }

  ghost predicate Directories(view: seq<HPage>, chains: seq<Chain>) {
    |chains| == PAGE_SIZE && forall s :: 0 <= s < PAGE_SIZE ==> DirEntry(view, s, Head(chains[s]))
  }

  ghost predicate ChainsOk(view: seq<HPage>, chains: seq<Chain>) {
    forall s :: 0 <= s < |chains| ==> ChainOk(view, chains[s])
  }

  /** Each block of the free list lists itself first, and no page is listed twice. */
  ghost predicate FreeOk(view: seq<HPage>, free: Chain) {
    && view != [] && view[0].Control? && view[0].free_block_head == Head(free)
    && ChainOk(view, free)
    && (forall i :: 0 <= i < |free| ==> |free[i].items| > 0 && free[i].items[0] == free[i].addr)
    && (forall a :: Held(free)[a] <= 1)
  }

  ghost function Lost(g: Layout): set<int> {
    set a | a in g.home && g.home[a] == LOST
  }

  /** Every page past the directories has one owner, except those in `hand`. */
  ghost predicate Homes(g: Layout, hand: set<int>, length: nat) {
    && FIRST <= length
    && (forall a :: a in g.home || a in hand ==> FIRST <= a < length)
    && (forall a :: a in g.home ==> 0 <= g.home[a] <= LOST)
    && g.home.Keys !! hand
    && (forall a :: FIRST <= a < length ==> a in g.home || a in hand)
    && |g.chains| == PAGE_SIZE
    && (forall s, a :: 0 <= s < PAGE_SIZE ==> (a in Addrs(g.chains[s]) <==> a in g.home && g.home[a] == s))
    && (forall a :: a in Held(g.free) <==> a in g.home && g.home[a] == FREE)
  }

  ghost predicate Counts(chains: seq<Chain>, buckets: seq<multiset<int>>) {
    |chains| == |buckets| == PAGE_SIZE && forall s :: 0 <= s < PAGE_SIZE ==> buckets[s] == Held(chains[s])
  }

  ghost predicate MapOk(view: seq<HPage>, g: Layout, hand: set<int>) {
    Directories(view, g.chains) && ChainsOk(view, g.chains) && FreeOk(view, g.free) && Homes(g, hand, |view|)
  }

  // ---- a change of the list of one size

  /** Nothing that belongs elsewhere changed. */
  ghost predicate Elsewhere(view: seq<HPage>, home: map<int, int>, s: nat, view': seq<HPage>) {
    && FIRST <= |view| && FIRST <= |view'| && view'[0] == view[0]
    && forall a :: a in home && home[a] != s ==> Same(view, view', a)
  }

  ghost predicate OtherEntries(view: seq<HPage>, s: nat, view': seq<HPage>) {
    forall t, head :: 0 <= t < PAGE_SIZE && t != s && DirEntry(view, t, head) ==> DirEntry(view', t, head)
  }

  ghost predicate Rehomed(home: map<int, int>, s: nat, home': map<int, int>, mine: set<int>) {
    && (forall a :: a in home && home[a] != s ==> a in home' && home'[a] == home[a])
    && (forall a :: a in home' && home'[a] != s ==> a in home && home[a] == home'[a])
    && (forall a :: a in mine <==> a in home' && home'[a] == s)
  }

  lemma Rechained(view: seq<HPage>, g: Layout, hand: set<int>, s: nat, c: Chain, home: map<int, int>, hand': set<int>,
      view': seq<HPage>)
    requires MapOk(view, g, hand) && s < PAGE_SIZE
    requires Elsewhere(view, g.home, s, view') && OtherEntries(view, s, view') && DirEntry(view', s, Head(c))
    requires ChainOk(view', c) && Rehomed(g.home, s, home, Addrs(c))
    requires forall a :: a in home || a in hand' ==> FIRST <= a < |view'|
    requires home.Keys !! hand' && forall a :: FIRST <= a < |view'| ==> a in home || a in hand'
    ensures MapOk(view', Layout(g.chains[s := c], g.free, home), hand')
  {
    RechainedLists(view, g, hand, s, c, view');
    hide ChainsOk, FreeOk, Elsewhere;
    hide DirEntry;
  }

  lemma RechainedLists(view: seq<HPage>, g: Layout, hand: set<int>, s: nat, c: Chain, view': seq<HPage>)
    requires MapOk(view, g, hand) && s < PAGE_SIZE
    requires Elsewhere(view, g.home, s, view') && ChainOk(view', c)
    ensures ChainsOk(view', g.chains[s := c]) && FreeOk(view', g.free)
  {
    hide Directories;
    hide LinkOk;
    forall t | 0 <= t < PAGE_SIZE && t != s ensures ChainOk(view', g.chains[t]) {
      assert ChainOk(view, g.chains[t]);
      assert forall a :: a in Addrs(g.chains[t]) ==> a in g.home && g.home[a] == t;
      ChainKept(view, g.chains[t], view');
    }
    FreeAddrs(view, g, hand);
    ChainKept(view, g.free, view');
  }

  /** The blocks of the free list are free pages. */
  lemma FreeAddrs(view: seq<HPage>, g: Layout, hand: set<int>)
    requires FreeOk(view, g.free) && Homes(g, hand, |view|)
    ensures forall a :: a in Addrs(g.free) ==> a in g.home && g.home[a] == FREE
  {
    forall i | 0 <= i < |g.free| ensures g.free[i].addr in Held(g.free) {
      HeldMember(g.free, i, 0);
    }
  }

  // ---- a change of the free list

  lemma Refreed(view: seq<HPage>, g: Layout, hand: set<int>, free: Chain, home: map<int, int>, hand': set<int>,
      view': seq<HPage>)
    requires MapOk(view, g, hand)
    requires FIRST <= |view| == |view'| && forall a :: 0 < a < FIRST ==> Same(view, view', a)
    requires forall a :: a in g.home && g.home[a] != FREE ==> Same(view, view', a)
    requires FreeOk(view', free) && Rehomed(g.home, FREE, home, set a | a in Held(free))
    requires forall a :: a in home || a in hand' ==> FIRST <= a < |view'|
    requires home.Keys !! hand' && forall a :: FIRST <= a < |view'| ==> a in home || a in hand'
    ensures MapOk(view', Layout(g.chains, free, home), hand')
  {
    hide Directories, ChainsOk, FreeOk, Rehomed, Homes;
    RefreedDirectories(view, g.chains, view');
    RefreedChains(view, g, hand, view');
    RefreedHomes(g, hand, |view|, free, home, hand');
  }

  lemma RefreedHomes(g: Layout, hand: set<int>, length: nat, free: Chain, home: map<int, int>, hand': set<int>)
    requires Homes(g, hand, length) && Rehomed(g.home, FREE, home, set a | a in Held(free))
    requires forall a :: a in home || a in hand' ==> FIRST <= a < length
    requires home.Keys !! hand' && forall a :: FIRST <= a < length ==> a in home || a in hand'
    ensures Homes(Layout(g.chains, free, home), hand', length)
  {
    hide Held, Addrs;
  }

  lemma RefreedDirectories(view: seq<HPage>, chains: seq<Chain>, view': seq<HPage>)
    requires Directories(view, chains) && forall a :: 0 < a < FIRST ==> Same(view, view', a)
    ensures Directories(view', chains)
  {
    forall s | 0 <= s < PAGE_SIZE ensures DirEntry(view', s, Head(chains[s])) {
      assert DirEntry(view, s, Head(chains[s])) && Same(view, view', s / HASH_MAP_DIR_BLOCK_SIZE + 1);
    }
  }

  lemma RefreedChains(view: seq<HPage>, g: Layout, hand: set<int>, view': seq<HPage>)
    requires ChainsOk(view, g.chains) && Homes(g, hand, |view|)
    requires forall a :: a in g.home && g.home[a] != FREE ==> Same(view, view', a)
    ensures ChainsOk(view', g.chains)
  {
    hide LinkOk, Held;
    forall t | 0 <= t < PAGE_SIZE ensures ChainOk(view', g.chains[t]) {
      assert ChainOk(view, g.chains[t]);
      assert forall a :: a in Addrs(g.chains[t]) ==> a in g.home && g.home[a] == t;
      ChainKept(view, g.chains[t], view');
    }
  }
}
