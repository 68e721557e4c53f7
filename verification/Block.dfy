/** The slotted page (src/block.c): item ids grow up from the header, items grow down from the
    end, and deletion compacts. */
module Blocks {
  import opened Common
  import opened Bits

  // ---- item ids: 1 bit availability, 15 bits offset, 15 bits size (include/block.h)

  const FIELD := 0x8000

  /** A cell as an unsigned int. */
  function Word(id: int): nat { id % 0x1_0000_0000 }

  /** Fifteen ones, (1 << 15) - 1. */
  const MASK := 0x7FFF

  /** compose_item_id */
  function ItemId(availability: nat, offset: nat, size: nat): nat {
    Or(Or(ShiftLeft(And(availability, 1), 30), ShiftLeft(And(offset, MASK), 15)), And(size, MASK))
  }

  /** get_item_id_availability */
  function Availability(id: int): (a: nat)
    ensures a <= 1
  {
    MaskIsRemainder(ShiftRight(Word(id), 30), 1);
    And(ShiftRight(Word(id), 30), 1)
  }

  /** get_item_id_offset */
  function Offset(id: int): (o: nat)
    ensures o < FIELD
  {
    Masked(ShiftRight(Word(id), 15));
    And(ShiftRight(Word(id), 15), MASK)
  }

  /** get_item_id_size */
  function Size(id: int): (s: nat)
    ensures s < FIELD
  {
    Masked(Word(id));
    And(Word(id), MASK)
  }

  lemma Powers()
    ensures Pow2(1) == 2 && Pow2(15) == FIELD && Pow2(30) == FIELD * FIELD && ShiftLeft(1, 15) - 1 == MASK == FIELD - 1
  {
    assert Pow2(5) == 32;
    Pow2Sum(5, 5);
    Pow2Sum(5, 10);
    Pow2Sum(15, 15);
    ShiftIsProduct(1, 15);
  }

  lemma Masked(n: nat)
    ensures And(n, MASK) == n % FIELD
  {
    Powers();
    MaskIsRemainder(n, 15);
  }

  /** The shifts and masks take a word apart by division ... */
  lemma FieldsOf(id: nat)
    requires id < 0x1_0000_0000
    ensures Availability(id) == id / (FIELD * FIELD) % 2
    ensures Offset(id) == id / FIELD % FIELD
    ensures Size(id) == id % FIELD
  {
    hide And, ShiftRight, Pow2;
    Powers();
    ShiftIsQuotient(id, 30);
    ShiftIsQuotient(id, 15);
    MaskIsRemainder(ShiftRight(id, 30), 1);
    Masked(ShiftRight(id, 15));
    Masked(id);
  }

  /** ... and put it together by addition. */
  lemma ItemIdIsSum(availability: nat, offset: nat, size: nat)
    ensures ItemId(availability, offset, size) ==
      availability % 2 * FIELD * FIELD + offset % FIELD * FIELD + size % FIELD
  {
    hide And, Or, ShiftLeft, Pow2;
    Powers();
    var a, o, s := availability % 2, offset % FIELD, size % FIELD;
    MaskIsRemainder(availability, 1);
    Masked(offset);
    Masked(size);
    ShiftIsProduct(a, 30);
    ShiftIsProduct(o, 15);
    OrIsSum(a, 30, ShiftLeft(o, 15));
    ShiftIsProduct(a * FIELD + o, 15);
    OrIsSum(a * FIELD + o, 15, s);
  }

  /** The three fields do not disturb one another. */
  lemma PackedId(availability: nat, offset: nat, size: nat)
    requires availability <= 1 && offset < FIELD && size < FIELD
    ensures Availability(ItemId(availability, offset, size)) == availability
    ensures Offset(ItemId(availability, offset, size)) == offset
    ensures Size(ItemId(availability, offset, size)) == size
  {
    hide Availability, Offset, Size, ItemId;
    ItemIdIsSum(availability, offset, size);
    FieldsOf(ItemId(availability, offset, size));
  }

  // ---- the page

  const HEADER := 6
  const ID_SIZE := 4

  function NItems(m: seq<Cell>): int requires |m| == PAGE_SIZE { m[0] }

  function HeadPtr(m: seq<Cell>): int requires |m| == PAGE_SIZE { m[2] }

  function TailPtr(m: seq<Cell>): int requires |m| == PAGE_SIZE { m[4] }

  function IdAt(i: nat): nat { HEADER + ID_SIZE * i }

  // the fields of slot i
  function Avl(m: seq<Cell>, i: nat): nat requires IdAt(i) < |m| { Availability(m[IdAt(i)]) }

  function Off(m: seq<Cell>, i: nat): nat requires IdAt(i) < |m| { Offset(m[IdAt(i)]) }

  function Siz(m: seq<Cell>, i: nat): nat requires IdAt(i) < |m| { Size(m[IdAt(i)]) }

  /** Slot i of the page lies below the free space and describes a stretch above it. */
  ghost predicate SlotOk(m: seq<Cell>, i: nat)
    requires |m| == PAGE_SIZE
  {
    && IdAt(i) + ID_SIZE <= PAGE_SIZE && Avl(m, i) <= 1
    && (Avl(m, i) == 0 ==> TailPtr(m) <= Off(m, i) && Off(m, i) + Siz(m, i) <= PAGE_SIZE)
  }

  /** Slot i is in use. */
  ghost predicate Live(m: seq<Cell>, i: nat) {
    |m| == PAGE_SIZE && i < NItems(m) && SlotOk(m, i) && Avl(m, i) == 0
  }

  ghost predicate Apart(m: seq<Cell>, i: nat, j: nat) {
    Live(m, i) && Live(m, j) ==> Off(m, i) + Siz(m, i) <= Off(m, j) || Off(m, j) + Siz(m, j) <= Off(m, i)
  }

  ghost predicate Covered(m: seq<Cell>, x: int) {
    exists i :: Live(m, i) && Off(m, i) <= x < Off(m, i) + Siz(m, i)
  }

  ghost predicate HeaderOk(m: seq<Cell>) {
    && |m| == PAGE_SIZE
    && NItems(m) >= 0 && HeadPtr(m) == HEADER + ID_SIZE * NItems(m) <= TailPtr(m) <= PAGE_SIZE
    && (forall i :: 0 <= i < NItems(m) ==> SlotOk(m, i))
  }

  ghost predicate Disjoint(m: seq<Cell>)
    requires |m| == PAGE_SIZE
  {
    forall i, j :: 0 <= i < j < NItems(m) ==> Apart(m, i, j)
  }

  ghost predicate Tiled(m: seq<Cell>)
    requires |m| == PAGE_SIZE
  {
    forall x :: TailPtr(m) <= x < PAGE_SIZE ==> Covered(m, x)
  }

  /** A well-formed page: the live items tile [tail_ptr, PAGE_SIZE) without overlap. */
  ghost predicate BlockOk(m: seq<Cell>) {
    HeaderOk(m) && Disjoint(m) && Tiled(m)
  }

  type Slot = Option<seq<Cell>>

  /** What slot i holds: nothing, or the cells of an item. */
  ghost function SlotAt(m: seq<Cell>, i: nat): Slot
    requires |m| == PAGE_SIZE && SlotOk(m, i)
  {
    if Avl(m, i) == 1 then None else Some(m[Off(m, i)..Off(m, i) + Siz(m, i)])
  }

  ghost function Slots(m: seq<Cell>): seq<Slot>
    requires HeaderOk(m)
  {
    seq(NItems(m), i requires 0 <= i < NItems(m) => SlotAt(m, i))
  }

  /** There is room for an item of that size: for its cells, and for an id if none can be
      reused. */
  ghost predicate Room(m: seq<Cell>, size: nat)
    requires HeaderOk(m)
  {
    TailPtr(m) - HeadPtr(m) >= size + if None in Slots(m) then 0 else ID_SIZE
  }

  /** The cells of the items together. */
  ghost function Load(slots: seq<Slot>): nat {
    if slots == [] then 0 else
    var last := slots[|slots| - 1];
    Load(slots[..|slots| - 1]) + if last.Some? then |last.value| else 0
  }

  /** There is room exactly if header, ids and items, with those of the new one, fit on a page. */
  lemma RoomIsSpace(m: seq<Cell>, size: nat)
    requires BlockOk(m)
    ensures Room(m, size) <==>
      HEADER + ID_SIZE * (|Slots(m)| + if None in Slots(m) then 0 else 1) + Load(Slots(m)) + size <= PAGE_SIZE
    ensures TailPtr(m) - HeadPtr(m) == PAGE_SIZE - HEADER - ID_SIZE * |Slots(m)| - Load(Slots(m))
  {
    hide Availability, Offset, Size;
    LoadUpTo(m, NItems(m));
    assert Slots(m)[..NItems(m)] == Slots(m);
    forall x | TailPtr(m) <= x < PAGE_SIZE ensures CoveredUpTo(m, NItems(m), x) {
      assert Covered(m, x);
    }
    assert CellsUpTo(m, NItems(m)) == PagesFrom(TailPtr(m), PAGE_SIZE);
    RangeSize(TailPtr(m), PAGE_SIZE);
  }

  ghost predicate CoveredUpTo(m: seq<Cell>, n: nat, x: int) {
    exists i: nat :: i < n && Live(m, i) && Off(m, i) <= x < Off(m, i) + Siz(m, i)
  }

  /** The cells of the items in the first n slots. */
  ghost function CellsUpTo(m: seq<Cell>, n: nat): set<int> {
    set x | 0 <= x < PAGE_SIZE && CoveredUpTo(m, n, x)
  }

  lemma {:induction false} LoadUpTo(m: seq<Cell>, n: nat)
    requires HeaderOk(m) && Disjoint(m) && n <= NItems(m)
    ensures |CellsUpTo(m, n)| == Load(Slots(m)[..n])
  {
    hide Availability, Offset, Size, Disjoint, CellsUpTo;
    if n == 0 {
      NoCells(m);
    } else {
      var k := n - 1;
      LoadUpTo(m, k);
      assert Slots(m)[..n][..k] == Slots(m)[..k] && SlotOk(m, k);
      if Avl(m, k) == 1 {
        SameCells(m, k);
      } else {
        NextCells(m, k);
        RangeSize(Off(m, k), Off(m, k) + Siz(m, k));
      }
    }
  }

  lemma NoCells(m: seq<Cell>)
    ensures CellsUpTo(m, 0) == {}
  {
  }

  lemma SameCells(m: seq<Cell>, k: nat)
    requires !Live(m, k)
    ensures CellsUpTo(m, k + 1) == CellsUpTo(m, k)
  {
    hide Availability, Offset, Size, Live;
    assert forall x :: CoveredUpTo(m, k + 1, x) <==> CoveredUpTo(m, k, x);
  }

  lemma NextCells(m: seq<Cell>, k: nat)
    requires HeaderOk(m) && Disjoint(m) && Live(m, k)
    ensures
      var own := PagesFrom(Off(m, k), Off(m, k) + Siz(m, k));
      CellsUpTo(m, k + 1) == CellsUpTo(m, k) + own && CellsUpTo(m, k) !! own
  {
    hide Availability, Offset, Size;
    forall i: nat | i < k ensures Apart(m, i, k) {
    }
    assert SlotOk(m, k);
    forall x | Off(m, k) <= x < Off(m, k) + Siz(m, k) ensures CoveredUpTo(m, k + 1, x) && !CoveredUpTo(m, k, x) {
      assert Live(m, k);
      forall i: nat | i < k ensures Live(m, i) ==> !(Off(m, i) <= x < Off(m, i) + Siz(m, i)) {
        assert Apart(m, i, k);
      }
    }
  }

  lemma {:induction false} RangeSize(n: int, length: int)
    requires n <= length
    ensures |PagesFrom(n, length)| == length - n
    decreases length - n
  {
    if n < length {
      RangeSize(n + 1, length);
      assert PagesFrom(n, length) == {n} + PagesFrom(n + 1, length);
    }
  }

  // ---- an item enters

  /** The page after new_item used slot k. */
  ghost predicate Placed(m: seq<Cell>, k: nat, item: seq<Cell>, m': seq<Cell>) {
    && HeaderOk(m) && |m'| == PAGE_SIZE && k <= NItems(m) && (k < NItems(m) ==> Avl(m, k) == 1)
    && var n := if k < NItems(m) then NItems(m) else k + 1;
       var tail := TailPtr(m) - |item|;
       && HEADER + ID_SIZE * n <= tail
       && m'[0] == n && m'[2] == HEADER + ID_SIZE * n && m'[4] == tail
       && Avl(m', k) == 0 && Off(m', k) == tail && Siz(m', k) == |item|
       && (forall i :: 0 <= i < NItems(m) && i != k ==> m'[IdAt(i)] == m[IdAt(i)])
       && m'[tail..TailPtr(m)] == item
       && (forall x :: TailPtr(m) <= x < PAGE_SIZE ==> m'[x] == m[x])
  }

  lemma PlacedOk(m: seq<Cell>, k: nat, item: seq<Cell>, m': seq<Cell>)
    requires BlockOk(m) && Placed(m, k, item, m')
    ensures BlockOk(m') && Slots(m') == if k < NItems(m) then Slots(m)[k := Some(item)] else Slots(m) + [Some(item)]
  {
    hide Availability, Offset, Size;
    forall i | 0 <= i < NItems(m) && i != k ensures SlotOk(m', i) && SlotAt(m', i) == SlotAt(m, i)
      && Live(m', i) == Live(m, i) {
      assert SlotOk(m, i);
      assert Avl(m, i) == 0 ==> m'[Off(m, i)..Off(m, i) + Siz(m, i)] == m[Off(m, i)..Off(m, i) + Siz(m, i)];
    }
    assert HeaderOk(m');
    forall i, j | 0 <= i < j < NItems(m') ensures Apart(m', i, j) {
      if i != k && j != k {
        assert Apart(m, i, j);
      }
    }
    PlacedTiled(m, k, item, m');
  }

  lemma PlacedTiled(m: seq<Cell>, k: nat, item: seq<Cell>, m': seq<Cell>)
    requires HeaderOk(m) && Tiled(m) && Placed(m, k, item, m') && HeaderOk(m')
    ensures Tiled(m')
  {
    hide Availability, Offset, Size;
    forall x | TailPtr(m') <= x < PAGE_SIZE ensures Covered(m', x) {
      if x < TailPtr(m) {
        assert Live(m', k) && Off(m', k) <= x < Off(m', k) + Siz(m', k);
      } else {
        assert Covered(m, x);
        var i: nat :| Live(m, i) && Off(m, i) <= x < Off(m, i) + Siz(m, i);
        assert Live(m', i) && Off(m', i) == Off(m, i) && Siz(m', i) == Siz(m, i);
      }
    }
  }

  // ---- an item leaves: the items below it move up by its size

  /** The page after delete_item of slot k. */
  ghost predicate Compacted(m: seq<Cell>, k: nat, m': seq<Cell>) {
    && HeaderOk(m) && |m'| == PAGE_SIZE && k < NItems(m) && Avl(m, k) == 0
    && var d, s := Off(m, k), Siz(m, k);
       var n := if k == NItems(m) - 1 then k else NItems(m);
       && m'[0] == n && m'[2] == HEADER + ID_SIZE * n && m'[4] == TailPtr(m) + s
       && Avl(m', k) == 1
       && (forall i :: 0 <= i < NItems(m) && i != k ==>
             && Avl(m', i) == Avl(m, i)
             && (Avl(m, i) == 0 ==>
                   Siz(m', i) == Siz(m, i) && Off(m', i) == if Off(m, i) <= d then Off(m, i) + s else Off(m, i)))
       && 0 <= TailPtr(m) <= d && d + s <= PAGE_SIZE
       && (forall x :: TailPtr(m) + s <= x < PAGE_SIZE ==> m'[x] == Shifted(m, d, s, x))
  }

  /** What the backward shift leaves at x. */
  ghost function Shifted(m: seq<Cell>, d: nat, s: nat, x: int): Cell
    requires |m| == PAGE_SIZE && s <= x < PAGE_SIZE
  {
    if x < d + s then m[x - s] else m[x]
  }

  lemma CompactedOk(m: seq<Cell>, k: nat, m': seq<Cell>)
    requires BlockOk(m) && Compacted(m, k, m')
    ensures BlockOk(m')
    ensures Slots(m') == if k == NItems(m) - 1 then Slots(m)[..k] else Slots(m)[k := None]
  {
    hide Availability, Offset, Size;
    CompactedSlots(m, k, m');
    CompactedTiled(m, k, m');
  }

  lemma SameStretch(m: seq<Cell>, o: nat, m': seq<Cell>, o': nat, z: nat)
    requires o + z <= |m| && o' + z <= |m'| && forall x :: o' <= x < o' + z ==> m'[x] == m[x - o' + o]
    ensures m'[o'..o' + z] == m[o..o + z]
  {
    var a, b := m'[o'..o' + z], m[o..o + z];
    forall t | 0 <= t < z ensures a[t] == b[t] {
      assert a[t] == m'[o' + t] == m[o' + t - o' + o];
    }
  }

  lemma ShiftedItem(m: seq<Cell>, k: nat, m': seq<Cell>, i: nat)
    requires HeaderOk(m) && Compacted(m, k, m') && i < NItems(m) && i != k && SlotOk(m, i) && SlotOk(m, k)
      && Apart(m, i, k)
    ensures SlotOk(m', i) && SlotAt(m', i) == SlotAt(m, i)
  {
    hide Availability, Offset, Size;
    if Avl(m, i) == 0 {
      var o, o', z := Off(m, i), Off(m', i), Siz(m, i);
      assert Live(m, i) && Live(m, k);
      assert o' == if o <= Off(m, k) then o + Siz(m, k) else o;
      assert z > 0 ==> o + z <= Off(m, k) || Off(m, k) + Siz(m, k) <= o;
      var d, s := Off(m, k), Siz(m, k);
      forall x | o' <= x < o' + z ensures m'[x] == m[x - o' + o] {
        assert TailPtr(m) <= d && d + s <= PAGE_SIZE && TailPtr(m) <= o && o + z <= PAGE_SIZE;
        assert m'[x] == Shifted(m, d, s, x);
        if o <= d && o + z <= d {
          assert x - s == x - o' + o;
        } else if o <= d {
          assert s == 0;
        } else {
          assert d + s <= o;
        }
      }
      SameStretch(m, o, m', o', z);
    }
  }

  lemma CompactedSlots(m: seq<Cell>, k: nat, m': seq<Cell>)
    requires HeaderOk(m) && Disjoint(m) && Compacted(m, k, m')
    ensures HeaderOk(m') && Disjoint(m')
    ensures forall i :: 0 <= i < NItems(m') && i != k ==> SlotAt(m', i) == SlotAt(m, i)
  {
    hide Availability, Offset, Size;
    forall i | 0 <= i < NItems(m) && i != k ensures Apart(m, i, k) && Apart(m, k, i) {
      assert if i < k then Apart(m, i, k) else Apart(m, k, i);
    }
    forall i | 0 <= i < NItems(m') && i != k ensures SlotOk(m', i) && SlotAt(m', i) == SlotAt(m, i) {
      assert SlotOk(m, i) && Apart(m, i, k);
      ShiftedItem(m, k, m', i);
    }
    forall i, j | 0 <= i < j < NItems(m') ensures Apart(m', i, j) {
      if i != k && j != k {
        assert Apart(m, i, j) && Apart(m, i, k) && Apart(m, j, k);
      }
    }
  }

  lemma CompactedTiled(m: seq<Cell>, k: nat, m': seq<Cell>)
    requires BlockOk(m) && Compacted(m, k, m') && HeaderOk(m')
    ensures Tiled(m')
  {
    hide Availability, Offset, Size;
    assert SlotOk(m, k);
    var d, s := Off(m, k), Siz(m, k);
    forall x | TailPtr(m') <= x < PAGE_SIZE ensures Covered(m', x) {
      var y := if x < d + s then x - s else x;
      assert Covered(m, y);
      var i: nat :| Live(m, i) && Off(m, i) <= y < Off(m, i) + Siz(m, i);
      assert if i < k then Apart(m, i, k) else i == k || Apart(m, k, i);
      assert i != k;
      assert Live(m', i) && Off(m', i) <= x < Off(m', i) + Siz(m', i);
    }
  }

  // ---- the functions of src/block.c, in place on the cells of a page

  method InitBlock(mem: array<Cell>)
    requires mem.Length == PAGE_SIZE
    modifies mem
    ensures BlockOk(mem[..]) && Slots(mem[..]) == [] && TailPtr(mem[..]) - HeadPtr(mem[..]) == PAGE_SIZE - HEADER
  {
    mem[0] := 0;
    mem[2] := HEADER;
    mem[4] := PAGE_SIZE;
  }

  /** get_item: where the item starts; None stands for the NULL results. */
  method GetItem(mem: array<Cell>, idx: int) returns (r: Option<nat>)
    requires mem.Length == PAGE_SIZE && BlockOk(mem[..])
    ensures r.Some? <==> 0 <= idx < |Slots(mem[..])| && Slots(mem[..])[idx].Some?
    ensures r.Some? ==>
      && IdAt(idx) < PAGE_SIZE && r.value == Off(mem[..], idx) && r.value + Siz(mem[..], idx) <= PAGE_SIZE
      && Slots(mem[..])[idx] == Some(mem[..][r.value..r.value + Siz(mem[..], idx)])
  {
    if idx < 0 || idx >= mem[0] {
      return None;
    }
    assert SlotOk(mem[..], idx);
    var id := mem[IdAt(idx)];
    if Availability(id) != 0 {
      return None;
    }
    r := Some(Offset(id));
  }

  /** Copy the cells of an item to its place. */
  method CopyIn(mem: array<Cell>, at: nat, item: seq<Cell>)
    requires at + |item| <= mem.Length
    modifies mem
    ensures mem[at..at + |item|] == item
    ensures forall x :: 0 <= x < mem.Length && !(at <= x < at + |item|) ==> mem[x] == old(mem[x])
  {
    for j := 0 to |item|
      invariant forall k :: at <= k < at + j ==> mem[k] == item[k - at]
      invariant forall x :: 0 <= x < mem.Length && !(at <= x < at + |item|) ==> mem[x] == old(mem[x])
    {
      mem[at + j] := item[j];
    }
  }

  /** Use slot k, the first free one or a new one, for the item. */
  method Place(mem: array<Cell>, k: nat, item: seq<Cell>)
    requires mem.Length == PAGE_SIZE && BlockOk(mem[..]) && Room(mem[..], |item|)
    requires k <= NItems(mem[..]) && if k < NItems(mem[..]) then Avl(mem[..], k) == 1 else None !in Slots(mem[..])
    modifies mem
    ensures BlockOk(mem[..])
    ensures Slots(mem[..]) == if k < |old(Slots(mem[..]))| then old(Slots(mem[..]))[k := Some(item)]
      else old(Slots(mem[..])) + [Some(item)]
  {
    hide Availability, Offset, Size, ItemId, Disjoint, Tiled;
    ghost var m := mem[..];
    RoomFor(m, k, |item|);
    var tail := mem[4] - |item|;
    PackedId(0, tail, |item|);
    mem[IdAt(k)] := ItemId(0, tail, |item|);
    if k == mem[0] {
      mem[0] := mem[0] + 1;
      mem[2] := mem[2] + ID_SIZE;
    }
    mem[4] := tail;
    CopyIn(mem, tail, item);
    assert mem[..][tail..TailPtr(m)] == item;
    assert forall i :: 0 <= i < NItems(m) && i != k ==> mem[..][IdAt(i)] == m[IdAt(i)];
    assert Placed(m, k, item, mem[..]);
    PlacedOk(m, k, item, mem[..]);
  }

  lemma RoomFor(m: seq<Cell>, k: nat, size: nat)
    requires HeaderOk(m) && Room(m, size) && k <= NItems(m)
    requires if k < NItems(m) then Avl(m, k) == 1 else None !in Slots(m)
    ensures HEADER + ID_SIZE * (if k < NItems(m) then NItems(m) else k + 1) <= TailPtr(m) - size
    ensures TailPtr(m) < FIELD && size < FIELD && IdAt(k) + ID_SIZE <= PAGE_SIZE
    ensures forall i :: 0 <= i < NItems(m) ==> IdAt(i) + ID_SIZE <= HeadPtr(m)
  {
    if k < NItems(m) {
      assert SlotOk(m, k) && Slots(m)[k] == None;
    }
  }

  /** new_item: there is room for the item. */
  method NewItem(mem: array<Cell>, item: seq<Cell>) returns (idx: nat)
    requires mem.Length == PAGE_SIZE && BlockOk(mem[..]) && Room(mem[..], |item|)
    modifies mem
    ensures BlockOk(mem[..]) && idx <= |old(Slots(mem[..]))|
    ensures idx < |old(Slots(mem[..]))| ==> old(Slots(mem[..]))[idx].None?
    ensures forall j :: 0 <= j < idx ==> old(Slots(mem[..]))[j].Some?
    ensures Slots(mem[..]) == if idx < |old(Slots(mem[..]))| then old(Slots(mem[..]))[idx := Some(item)]
      else old(Slots(mem[..])) + [Some(item)]
  {
    ghost var m := mem[..];
    for i := 0 to mem[0]
      invariant mem[..] == m
      invariant forall j :: 0 <= j < i ==> Avl(m, j) == 0
    {
      assert SlotOk(m, i);
      if Availability(mem[IdAt(i)]) != 0 {
        Place(mem, i, item);
        return i;
      }
    }
    AllUsed(m);
    idx := mem[0];
    Place(mem, idx, item);
  }

  lemma AllUsed(m: seq<Cell>)
    requires HeaderOk(m) && forall j :: 0 <= j < NItems(m) ==> Avl(m, j) == 0
    ensures None !in Slots(m)
  {
  }

  /** An id before and after an item of `size` cells at `d` was taken out below or at it. */
  ghost predicate Rewritten(id: int, id': int, d: nat, size: nat) {
    && Availability(id') == Availability(id)
    && (Availability(id) == 0 ==>
      Size(id') == Size(id) && Offset(id') == if Offset(id) <= d then Offset(id) + size else Offset(id))
  }

  /** The first loop of delete_item: items below the deleted one will move up. */
  method RewriteIds(mem: array<Cell>, idx: nat, d: nat, size: nat)
    requires mem.Length == PAGE_SIZE && HeaderOk(mem[..]) && idx < NItems(mem[..])
    requires d == Off(mem[..], idx) && size == Siz(mem[..], idx) && Avl(mem[..], idx) == 0
    modifies mem
    ensures forall x :: 0 <= x < mem.Length && (x < HEADER || old(HeadPtr(mem[..])) <= x) ==> mem[x] == old(mem[x])
    ensures mem[IdAt(idx)] == old(mem[IdAt(idx)])
    ensures forall i :: 0 <= i < NItems(old(mem[..])) && i != idx ==>
      IdAt(i) < PAGE_SIZE && Rewritten(old(mem[IdAt(i)]), mem[IdAt(i)], d, size)
  {
    hide Availability, Offset, Size, ItemId;
    ghost var m := mem[..];
    for i := 0 to mem[0]
      invariant forall x :: 0 <= x < mem.Length && (x < HEADER || HeadPtr(m) <= x) ==> mem[x] == m[x]
      invariant mem[IdAt(idx)] == m[IdAt(idx)]
      invariant forall j :: i <= j < NItems(m) ==> IdAt(j) < mem.Length && mem[IdAt(j)] == m[IdAt(j)]
      invariant forall j :: 0 <= j < i && j != idx ==>
        IdAt(j) < PAGE_SIZE && Rewritten(m[IdAt(j)], mem[IdAt(j)], d, size)
    {
      assert SlotOk(m, i) && SlotOk(m, idx);
      if i != idx {
        var tmp := mem[IdAt(i)];
        if Availability(tmp) == 0 && Offset(tmp) <= d {
          PackedId(0, Offset(tmp) + size, Size(tmp));
          mem[IdAt(i)] := ItemId(0, Offset(tmp) + size, Size(tmp));
        }
      }
    }
  }

  /** The second loop: shift [tail, d) up by size cells, from the top down. */
  method ShiftUp(mem: array<Cell>, tail: nat, d: nat, size: nat)
    requires tail <= d && d + size <= mem.Length
    modifies mem
    ensures forall x :: 0 <= x < tail + size && x < mem.Length ==> mem[x] == old(mem[x])
    ensures forall x :: tail + size <= x < d + size ==> mem[x] == old(mem[x - size])
    ensures forall x :: d + size <= x < mem.Length ==> mem[x] == old(mem[x])
  {
    var ptrn := d - 1;
    while ptrn >= tail
      invariant tail - 1 <= ptrn <= d - 1
      invariant forall x :: 0 <= x <= ptrn + size ==> mem[x] == old(mem[x])
      invariant forall x :: ptrn + size < x < d + size ==> mem[x] == old(mem[x - size])
      invariant forall x :: d + size <= x < mem.Length ==> mem[x] == old(mem[x])
    {
      mem[ptrn + size] := mem[ptrn];
      ptrn := ptrn - 1;
    }
  }

  /** delete_item: frees the slot of a live item and closes the gap.  Anything else is left as
      it is. */
  method DeleteItem(mem: array<Cell>, idx: int)
    requires mem.Length == PAGE_SIZE && BlockOk(mem[..])
    modifies mem
    ensures BlockOk(mem[..])
    ensures
      var before := old(Slots(mem[..]));
      Slots(mem[..]) ==
        if idx < 0 || idx >= |before| || before[idx].None? then before
        else if idx == |before| - 1 then before[..idx]
        else before[idx := None]
  {
    if idx < 0 || idx >= mem[0] {
      return;
    }
    ghost var m := mem[..];
    assert SlotOk(m, idx);
    var id := mem[IdAt(idx)];
    if Availability(id) != 0 {
      return;
    }
    TakeOut(mem, idx, id);
    CompactedOk(m, idx, mem[..]);
  }

  method TakeOut(mem: array<Cell>, idx: nat, id: int)
    requires mem.Length == PAGE_SIZE && HeaderOk(mem[..]) && idx < NItems(mem[..]) && id == mem[IdAt(idx)]
      && Avl(mem[..], idx) == 0
    modifies mem
    ensures Compacted(old(mem[..]), idx, mem[..])
  {
    hide Availability, Offset, Size, ItemId, Compacted, Shifted, Rewritten, HeaderOk;
    ghost var m := mem[..];
    InUse(m, idx);
    var size, tail := Size(id), mem[4];
    RewriteIds(mem, idx, Offset(id), size);
    ghost var m1 := mem[..];
    ShiftUp(mem, tail, Offset(id), size);
    ghost var m2 := mem[..];
    FreeSlot(mem, idx, tail + size);
    CompactedFrom(m, idx, m1, m2, mem[..]);
  }

  /** The end of delete_item: slot idx is free, and gone if it was the last one. */
  method FreeSlot(mem: array<Cell>, idx: nat, tail: nat)
    requires mem.Length == PAGE_SIZE && idx < mem[0] && IdAt(idx) < PAGE_SIZE && mem[2] == HEADER + ID_SIZE * mem[0]
    modifies mem
    ensures
      var n := if idx == old(mem[0]) - 1 then idx else old(mem[0]);
      mem[0] == n && mem[2] == HEADER + ID_SIZE * n && mem[4] == tail
    ensures Availability(mem[IdAt(idx)]) == 1
    ensures forall x :: HEADER <= x < PAGE_SIZE && x != IdAt(idx) ==> mem[x] == old(mem[x])
  {
    hide Availability, Offset, Size, ItemId;
    PackedId(1, 0, 0);
    mem[IdAt(idx)] := ItemId(1, 0, 0);
    mem[4] := tail;
    if idx == mem[0] - 1 {
      mem[0] := mem[0] - 1;
      mem[2] := mem[2] - ID_SIZE;
    }
  }

  lemma InUse(m: seq<Cell>, i: nat)
    requires HeaderOk(m) && i < NItems(m) && Avl(m, i) == 0
    ensures IdAt(i) + ID_SIZE <= HeadPtr(m) <= TailPtr(m) <= Off(m, i) && Off(m, i) + Siz(m, i) <= PAGE_SIZE
    ensures HeadPtr(m) == HEADER + ID_SIZE * NItems(m)
  {
    assert SlotOk(m, i);
  }

  /** The steps of delete_item together: the ids rewritten (m1), the cells shifted (m2), the
      slot freed and the header adjusted (m'). */
  lemma CompactedFrom(m: seq<Cell>, k: nat, m1: seq<Cell>, m2: seq<Cell>, m': seq<Cell>)
    requires HeaderOk(m) && k < NItems(m) && Avl(m, k) == 0 && |m1| == |m2| == |m'| == PAGE_SIZE
    requires forall x :: 0 <= x < PAGE_SIZE && (x < HEADER || HeadPtr(m) <= x) ==> m1[x] == m[x]
    requires forall i :: 0 <= i < NItems(m) && i != k ==>
      IdAt(i) < PAGE_SIZE && Rewritten(m[IdAt(i)], m1[IdAt(i)], Off(m, k), Siz(m, k))
    requires forall x :: 0 <= x < TailPtr(m) + Siz(m, k) && x < PAGE_SIZE ==> m2[x] == m1[x]
    requires forall x :: TailPtr(m) + Siz(m, k) <= x < Off(m, k) + Siz(m, k) && x < PAGE_SIZE ==>
      m2[x] == m1[x - Siz(m, k)]
    requires forall x :: Off(m, k) + Siz(m, k) <= x < PAGE_SIZE ==> m2[x] == m1[x]
    requires
      var n := if k == NItems(m) - 1 then k else NItems(m);
      m'[0] == n && m'[2] == HEADER + ID_SIZE * n && m'[4] == TailPtr(m) + Siz(m, k)
    requires IdAt(k) < PAGE_SIZE && Availability(m'[IdAt(k)]) == 1
    requires forall x :: HEADER <= x < PAGE_SIZE && x != IdAt(k) ==> m'[x] == m2[x]
    ensures Compacted(m, k, m')
  {
    hide Availability, Offset, Size;
    InUse(m, k);
    forall i | 0 <= i < NItems(m) && i != k ensures m'[IdAt(i)] == m1[IdAt(i)] {
      assert SlotOk(m, i);
      assert IdAt(i) < HeadPtr(m);
    }
  }
}
