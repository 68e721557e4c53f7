/** Strings of any length as linked chunks in a table (src/str.c). */
module Strings {
  import opened Common
  import opened KeyOrder
  import opened Tables

  // ---- chunks (include/str.h): the next chunk, the size of this one, its characters

  const RID_SIZE := 10
  const CHUNK_HEADER := RID_SIZE + 2
  /** What a chunk of a quarter of a page has room for. */
  const STR_CHUNK_MAX_LEN := 20

  lemma ChunkSizes()
    ensures STR_CHUNK_MAX_LEN + CHUNK_HEADER == PAGE_SIZE / 4
  {
  }

  type Items = map<RID, seq<Cell>>

  function RidCells(r: RID): seq<Cell> {
    [r.block_addr, 0, 0, 0, 0, 0, 0, 0, r.idx, 0]
  }

  function RidAt(cells: seq<Cell>, at: nat): RID
    requires at + RID_SIZE <= |cells|
  {
    RID(cells[at], cells[at + 8])
  }

  /** The cells of a chunk. */
  function Chunk(next: RID, data: String): (c: seq<Cell>)
    ensures |c| == CHUNK_HEADER + |data| && RidAt(c, 0) == next && c[RID_SIZE] == |data|
    ensures forall j :: 0 <= j < |data| ==> c[CHUNK_HEADER + j] == data[j]
  {
    RidCells(next) + [|data|, 0] + Chars(data)
  }

  function Chars(data: String): (c: seq<Cell>)
    ensures |c| == |data| && forall j :: 0 <= j < |data| ==> c[j] == data[j]
  {
    seq(|data|, j requires 0 <= j < |data| => data[j])
  }

  /** How many chunks a string of n characters takes: the empty string takes one. */
  function Chunks(n: nat): nat {
    if n == 0 then 1 else (n - 1) / STR_CHUNK_MAX_LEN + 1
  }

  /** The characters of chunk i. */
  function Piece(s: String, i: nat): String {
    var from := STR_CHUNK_MAX_LEN * i;
    if from >= |s| then [] else if from + STR_CHUNK_MAX_LEN <= |s| then s[from..from + STR_CHUNK_MAX_LEN] else s[from..]
  }

  ghost function Next(chain: seq<RID>, i: nat): RID {
    if i + 1 < |chain| then chain[i + 1] else NO_RID
  }

  ghost predicate ChunkAt(items: Items, chain: seq<RID>, s: String, i: nat)
    requires i < |chain|
  {
    chain[i] in items && chain[i].block_addr >= 0 && items[chain[i]] == Chunk(Next(chain, i), Piece(s, i))
  }

  ghost predicate Distinct(chain: seq<RID>) {
    forall i, j :: 0 <= i < j < |chain| ==> chain[i] != chain[j]
  }

  ghost function Rids(chain: seq<RID>): set<RID> {
    set r | r in chain
  }

  /** The chunks of the chain hold exactly the string. */
  ghost predicate Spells(items: Items, chain: seq<RID>, s: String) {
    && |chain| == Chunks(|s|) && Distinct(chain)
    && forall i :: 0 <= i < |chain| ==> ChunkAt(items, chain, s, i)
  }

  /** A chain says one string only. */
  lemma SpellsOne(items: Items, chain: seq<RID>, s: String, t: String)
    requires Spells(items, chain, s) && Spells(items, chain, t)
    ensures s == t
  {
    hide Spells;
    SpelledChars(items, chain, s, t);
    SpelledChars(items, chain, t, s);
  }

  lemma SpelledChars(items: Items, chain: seq<RID>, s: String, t: String)
    requires Spells(items, chain, s) && Spells(items, chain, t)
    ensures |s| <= |t| && forall k :: 0 <= k < |s| ==> s[k] == t[k]
  {
    hide Spells;
    forall k | 0 <= k < |s| ensures k < |t| && s[k] == t[k] {
      SpelledChar(items, chain, s, t, k);
    }
    if s != [] {
      SpelledChar(items, chain, s, t, |s| - 1);
    }
  }

  lemma SpelledChar(items: Items, chain: seq<RID>, s: String, t: String, k: nat)
    requires Spells(items, chain, s) && Spells(items, chain, t) && k < |s|
    ensures k < |t| && s[k] == t[k]
  {
    hide Piece, Chunks, Chunk;
    var i, j := k / STR_CHUNK_MAX_LEN, k % STR_CHUNK_MAX_LEN;
    InPiece(s, k, i, j);
    assert ChunkAt(items, chain, s, i) && ChunkAt(items, chain, t, i);
    SameChunk(Next(chain, i), Piece(s, i), Piece(t, i));
    PieceFacts(t, i);
  }

  lemma SameChunk(next: RID, a: String, b: String)
    requires Chunk(next, a) == Chunk(next, b)
    ensures a == b
  {
    hide Chunk;
    var c := Chunk(next, a);
    assert |a| == |c| - CHUNK_HEADER == |b|;
    assert forall j :: 0 <= j < |a| ==> a[j] == c[CHUNK_HEADER + j] == b[j];
  }

  /** Every chunk but the last is full; the pieces cover the string. */
  lemma PieceFacts(s: String, i: nat)
    requires i < Chunks(|s|)
    ensures
      var n := |Piece(s, i)|;
      && STR_CHUNK_MAX_LEN * i + n <= |s| && n <= STR_CHUNK_MAX_LEN
        && Piece(s, i) == s[STR_CHUNK_MAX_LEN * i..STR_CHUNK_MAX_LEN * i + n]
      && (i + 1 < Chunks(|s|) ==> n == STR_CHUNK_MAX_LEN && STR_CHUNK_MAX_LEN * (i + 1) < |s| && Piece(s, i + 1) != [])
      && (i + 1 == Chunks(|s|) ==> STR_CHUNK_MAX_LEN * i + n == |s|)
  {
  }

  lemma InPiece(s: String, k: nat, i: nat, j: nat)
    requires k < |s| && k == STR_CHUNK_MAX_LEN * i + j && j < STR_CHUNK_MAX_LEN
    ensures i < Chunks(|s|) && j < |Piece(s, i)| && Piece(s, i)[j] == s[k]
  {
    var n := (|s| - 1) / STR_CHUNK_MAX_LEN;
    assert |s| - 1 < STR_CHUNK_MAX_LEN * (n + 1);
    assert i <= n;
  }

  lemma SpellsKept(items: Items, chain: seq<RID>, s: String, items': Items)
    requires Spells(items, chain, s) && forall r :: r in chain && r in items ==> r in items' && items'[r] == items[r]
    ensures Spells(items', chain, s)
  {
    hide Chunks, Piece, Chunk;
    forall i | 0 <= i < |chain| ensures ChunkAt(items', chain, s, i) {
      assert ChunkAt(items, chain, s, i);
    }
  }

  // ---- the cursor

  /** The cursor stands before character `pos`: at `idx` of the chunk that it loaded. */
  ghost predicate Standing(items: Items, chain: seq<RID>, s: String, chunk: seq<Cell>, idx: nat, pos: nat) {
    exists i: nat :: StandsIn(items, chain, s, chunk, idx, pos, i)
  }

  ghost predicate StandsIn(items: Items, chain: seq<RID>, s: String, chunk: seq<Cell>, idx: nat, pos: nat, i: nat) {
    && i < |chain| && chain[i] in items && chunk == items[chain[i]]
    && idx <= |Piece(s, i)| && pos == STR_CHUNK_MAX_LEN * i + idx
  }

  /** What a chunk tells the cursor. */
  lemma StandingChunk(items: Items, chain: seq<RID>, s: String, chunk: seq<Cell>, idx: nat, pos: nat)
    requires Spells(items, chain, s) && Standing(items, chain, s, chunk, idx, pos)
    ensures |chunk| >= CHUNK_HEADER && pos <= |s|
    ensures 0 <= chunk[RID_SIZE] == |chunk| - CHUNK_HEADER && idx <= chunk[RID_SIZE]
    ensures idx < chunk[RID_SIZE] ==>
      pos < |s| && chunk[CHUNK_HEADER + idx] == s[pos] && Standing(items, chain, s, chunk, idx + 1, pos + 1)
    ensures
      var next := RidAt(chunk, 0);
      if next.block_addr == -1 then pos - idx + chunk[RID_SIZE] == |s|
      else
        && next in items && next.block_addr >= 0 && pos - idx + chunk[RID_SIZE] < |s| && chunk[RID_SIZE] > 0
        && Standing(items, chain, s, items[next], 0, pos - idx + chunk[RID_SIZE]) && |items[next]| > CHUNK_HEADER
  {
    hide Piece, Chunks, Chunk;
    var i: nat :| StandsIn(items, chain, s, chunk, idx, pos, i);
    assert ChunkAt(items, chain, s, i);
    PieceFacts(s, i);
    if idx < |Piece(s, i)| {
      assert StandsIn(items, chain, s, chunk, idx + 1, pos + 1, i);
    }
    if i + 1 < |chain| {
      assert ChunkAt(items, chain, s, i + 1);
      assert StandsIn(items, chain, s, items[chain[i + 1]], 0, pos - idx + chunk[RID_SIZE], i + 1);
    }
  }

  lemma StandingStart(items: Items, chain: seq<RID>, s: String)
    requires Spells(items, chain, s)
    ensures chain != [] && chain[0] in items && chain[0].block_addr >= 0
      && Standing(items, chain, s, items[chain[0]], 0, 0)
  {
    hide Piece, Chunk;
    assert ChunkAt(items, chain, s, 0);
    assert StandsIn(items, chain, s, items[chain[0]], 0, 0, 0);
  }

  /** StringRecord: the loaded chunk and a position in it.  `pos` is the position in the whole
      string. */
  class StringRecord {
    var chunk: seq<Cell>
    var idx: nat
    ghost var pos: nat

    constructor ()
      ensures chunk == [] && idx == 0 && pos == 0
    {
      chunk, idx, pos := [], 0, 0;
    }

    /** The record is a cursor on that string. */
    ghost predicate On(items: Items, chain: seq<RID>, s: String)
      reads this
    {
      Spells(items, chain, s) && Standing(items, chain, s, chunk, idx, pos)
    }

    lemma Facts(items: Items, chain: seq<RID>, s: String)
      requires On(items, chain, s)
      ensures |chunk| >= CHUNK_HEADER && pos <= |s| && 0 <= chunk[RID_SIZE] == |chunk| - CHUNK_HEADER
        && idx <= chunk[RID_SIZE]
      ensures idx < chunk[RID_SIZE] ==> pos < |s| && chunk[CHUNK_HEADER + idx] == s[pos]
      ensures RidAt(chunk, 0).block_addr == -1 ==> pos - idx + chunk[RID_SIZE] == |s|
      ensures RidAt(chunk, 0).block_addr != -1 ==> RidAt(chunk, 0) in items && pos - idx + chunk[RID_SIZE] < |s|
    {
      hide Spells, Standing;
      StandingChunk(items, chain, s, chunk, idx, pos);
    }

    /** has_next_char: whether any character is left. */
    method HasNextChar(ghost items: Items, ghost chain: seq<RID>, ghost s: String) returns (more: bool)
      requires On(items, chain, s)
      ensures more <==> pos < |s|
    {
      Facts(items, chain, s);
      if idx < chunk[RID_SIZE] {
        more := true;
      } else {
        more := RidAt(chunk, 0).block_addr != -1;
      }
    }
  }

  /** read_string: load the chunk at rid.  The caller says which position that is. */
  method ReadString(table: Table, rid: RID, record: StringRecord, ghost pos: nat)
    requires table.Valid() && rid in table.items && record !in table.Repr
    modifies table.Repr, record
    ensures table.Valid() && table.items == old(table.items)
    ensures record.chunk == table.items[rid] && record.idx == 0 && record.pos == pos
  {
    hide Table.Valid;
    record.chunk := table.Read(rid);
    record.idx := 0;
    record.pos := pos;
  }

  /** read_string on the first chunk of a string. */
  method OpenString(table: Table, rid: RID, record: StringRecord, ghost chain: seq<RID>, ghost s: String)
    requires table.Valid() && record !in table.Repr && Spells(table.items, chain, s) && chain != [] && rid == chain[0]
    modifies table.Repr, record
    ensures table.Valid() && table.items == old(table.items)
    ensures record.On(table.items, chain, s) && record.idx == 0 && record.pos == 0
  {
    hide Table.Valid, Spells, Standing;
    StandingStart(table.items, chain, s);
    ReadString(table, rid, record, 0);
  }

  /** The cursor has read its chunk: load the next one. */
  method NextChunk(table: Table, record: StringRecord, ghost chain: seq<RID>, ghost s: String)
    requires table.Valid() && record !in table.Repr && record.On(table.items, chain, s) && record.pos < |s|
    requires |record.chunk| >= CHUNK_HEADER && record.idx >= record.chunk[RID_SIZE]
    modifies table.Repr, record
    ensures table.Valid() && table.items == old(table.items)
    ensures record.On(table.items, chain, s) && record.pos == old(record.pos) && record.idx == 0
    ensures |record.chunk| > CHUNK_HEADER && record.chunk[RID_SIZE] > 0
  {
    hide Table.Valid, Spells, Standing;
    record.Facts(table.items, chain, s);
    StandingChunk(table.items, chain, s, record.chunk, record.idx, record.pos);
    ReadString(table, RidAt(record.chunk, 0), record, record.pos);
    record.Facts(table.items, chain, s);
  }

  /** next_char. */
  method NextChar(table: Table, record: StringRecord, ghost chain: seq<RID>, ghost s: String) returns (a: Char)
    requires table.Valid() && record !in table.Repr && record.On(table.items, chain, s) && record.pos < |s|
    modifies table.Repr, record
    ensures table.Valid() && table.items == old(table.items)
    ensures a == s[old(record.pos)] && record.pos == old(record.pos) + 1 && record.On(table.items, chain, s)
  {
    hide Table.Valid, StringRecord.On;
    record.Facts(table.items, chain, s);
    if record.idx < record.chunk[RID_SIZE] {
      a := TakeChar(table.items, record, chain, s);
    } else {
      NextChunk(table, record, chain, s);
      a := TakeChar(table.items, record, chain, s);
    }
  }

  /** The character at the cursor, which moves on within its chunk. */
  method TakeChar(ghost items: Items, record: StringRecord, ghost chain: seq<RID>, ghost s: String) returns (a: Char)
    requires record.On(items, chain, s) && |record.chunk| >= CHUNK_HEADER && record.idx < record.chunk[RID_SIZE]
    modifies record
    ensures 0 < record.pos == old(record.pos) + 1 <= |s| && a == s[record.pos - 1] && record.On(items, chain, s)
  {
    hide Spells, Standing;
    StandingChunk(items, chain, s, record.chunk, record.idx, record.pos);
    a := record.chunk[CHUNK_HEADER + record.idx];
    record.idx := record.idx + 1;
    record.pos := record.pos + 1;
  }

  /** get_string_size: the length; the cursor, at the start of the first chunk before, is
      rewound. */
  method GetStringSize(table: Table, record: StringRecord, root: RID, ghost chain: seq<RID>, ghost s: String)
      returns (ans: nat)
    requires table.Valid() && record !in table.Repr && record.On(table.items, chain, s) && record.idx == 0
      && record.pos == 0
    requires chain != [] && root == chain[0]
    modifies table.Repr, record
    ensures table.Valid() && table.items == old(table.items)
    ensures ans == |s| && record.On(table.items, chain, s) && record.idx == 0 && record.pos == 0
  {
    hide Table.Valid, Spells, Standing;
    ans := 0;
    while true
      invariant table.Valid() && table.items == old(table.items)
      invariant record.On(table.items, chain, s) && record.idx == 0 && record.pos == ans
      decreases |s| - ans
      modifies table.Repr, record
    {
      record.Facts(table.items, chain, s);
      StandingChunk(table.items, chain, s, record.chunk, record.idx, record.pos);
      ans := ans + record.chunk[RID_SIZE];
      var rid := RidAt(record.chunk, 0);
      if rid.block_addr < 0 {
        break;
      }
      ReadString(table, rid, record, ans);
    }
    OpenString(table, root, record, chain, s);
  }

  /** load_string: up to max_size characters from the cursor on. */
  method LoadString(table: Table, record: StringRecord, dest: array<Char>, max_size: nat, ghost chain: seq<RID>,
      ghost s: String) returns (i: nat)
    requires table.Valid() && record !in table.Repr && dest !in table.Repr && dest.Length >= max_size
    requires record.On(table.items, chain, s)
    modifies table.Repr, record, dest
    ensures table.Valid() && table.items == old(table.items)
    ensures i == if |s| - old(record.pos) <= max_size then |s| - old(record.pos) else max_size
    ensures record.On(table.items, chain, s) && record.pos == old(record.pos) + i
    ensures dest[..] == s[old(record.pos)..old(record.pos) + i] + old(dest[..])[i..]
  {
    hide Table.Valid, StringRecord.On, Loaded;
    i := 0;
    record.Facts(table.items, chain, s);
    ghost var rest, was := s[record.pos..], dest[..];
    LoadedNone(rest, was);
    var more := record.HasNextChar(table.items, chain, s);
    while more && i < max_size
      invariant table.Valid() && table.items == old(table.items)
      invariant record.On(table.items, chain, s) && record.pos == old(record.pos) + i <= |s| && i <= max_size
      invariant more <==> record.pos < |s|
      invariant dest[..] == Loaded(rest, i, was)
      modifies table.Repr, record, dest
    {
      LoadedMore(rest, i, was);
      var a := NextChar(table, record, chain, s);
      assert dest[..] == Loaded(rest, i, was) && a == rest[i];
      dest[i] := a;
      i := i + 1;
      more := record.HasNextChar(table.items, chain, s);
    }
    LoadedAll(s, old(record.pos), i, was);
  }

  /** A buffer after i characters were stored in it. */
  ghost function Loaded(rest: String, i: nat, was: String): String
    requires i <= |rest| && i <= |was|
  {
    rest[..i] + was[i..]
  }

  lemma LoadedNone(rest: String, was: String)
    ensures Loaded(rest, 0, was) == was
  {
  }

  lemma LoadedMore(rest: String, i: nat, was: String)
    requires i < |rest| && i < |was|
    ensures |Loaded(rest, i, was)| == |was| && Loaded(rest, i, was)[i := rest[i]] == Loaded(rest, i + 1, was)
  {
  }

  lemma LoadedAll(s: String, from: nat, i: nat, was: String)
    requires from + i <= |s| && i <= |was|
    ensures Loaded(s[from..], i, was) == s[from..from + i] + was[i..]
  {
  }

  // ---- comparison

  lemma CompareStep(a: String, b: String)
    requires a != [] && b != []
    ensures Compare(a, b) == if a[0] > b[0] then 1 else if a[0] < b[0] then -1 else Compare(a[1..], b[1..])
  {
    assert a == [a[0]] + a[1..] && b == [b[0]] + b[1..];
  }

  /** compare_string_record: the three-way order of what is left of two strings. */
  method CompareStringRecord(table: Table, a: StringRecord, b: StringRecord, ghost ca: seq<RID>, ghost x: String,
      ghost cb: seq<RID>, ghost y: String)
    returns (c: int)
    requires table.Valid() && a !in table.Repr && b !in table.Repr && a != b
    requires a.On(table.items, ca, x) && b.On(table.items, cb, y)
    requires a.pos <= |x| && b.pos <= |y|
    modifies table.Repr, a, b
    ensures table.Valid() && table.items == old(table.items)
    ensures c == Compare(x[old(a.pos)..], y[old(b.pos)..])
  {
    hide Table.Valid, StringRecord.On, Less, Compare;
    var moreA := a.HasNextChar(table.items, ca, x);
    var moreB := b.HasNextChar(table.items, cb, y);
    while moreA && moreB
      invariant table.Valid() && table.items == old(table.items)
      invariant a.On(table.items, ca, x) && b.On(table.items, cb, y) && a.pos <= |x| && b.pos <= |y|
      invariant (moreA <==> a.pos < |x|) && (moreB <==> b.pos < |y|)
      invariant Compare(x[old(a.pos)..], y[old(b.pos)..]) == Compare(x[a.pos..], y[b.pos..])
      decreases |x| - a.pos
      modifies table.Repr, a, b
    {
      CompareStep(x[a.pos..], y[b.pos..]);
      assert x[a.pos..][1..] == x[a.pos + 1..] && y[b.pos..][1..] == y[b.pos + 1..];
      var p := NextChar(table, a, ca, x);
      var q := NextChar(table, b, cb, y);
      if p > q {
        return 1;
      } else if p < q {
        return -1;
      }
      moreA := a.HasNextChar(table.items, ca, x);
      moreB := b.HasNextChar(table.items, cb, y);
    }
    CompareEnd(x[a.pos..], y[b.pos..]);
    c := if moreA then 1 else if moreB then -1 else 0;
  }

  lemma CompareEnd(a: String, b: String)
    requires a == [] || b == []
    ensures Compare(a, b) == if a != [] then 1 else if b != [] then -1 else 0
  {
  }

  // ---- writing, from the last chunk to the first

  /** The chunks from number i on are written. */
  ghost predicate SpellsFrom(items: Items, tail: seq<RID>, s: String, i: nat) {
    && |tail| + i == Chunks(|s|) && Distinct(tail)
    && forall j :: 0 <= j < |tail| ==>
      tail[j] in items && tail[j].block_addr >= 0 && items[tail[j]] == Chunk(Next(tail, j), Piece(s, i + j))
  }

  lemma SpellsAll(items: Items, chain: seq<RID>, s: String)
    requires SpellsFrom(items, chain, s, 0)
    ensures Spells(items, chain, s) && chain != []
  {
    hide Chunk, Piece;
    forall j | 0 <= j < |chain| ensures ChunkAt(items, chain, s, j) {
      assert Piece(s, 0 + j) == Piece(s, j);
    }
  }

  lemma SpellsMore(items: Items, tail: seq<RID>, s: String, i: nat, rid: RID)
    requires SpellsFrom(items, tail, s, i + 1) && rid !in items && rid.block_addr >= 0
    ensures
      var next := if tail == [] then NO_RID else tail[0];
      SpellsFrom(items[rid := Chunk(next, Piece(s, i))], [rid] + tail, s, i)
  {
    hide Chunk, Piece, Chunks, Distinct;
    DistinctMore(tail, rid);
    var next := if tail == [] then NO_RID else tail[0];
    var items', tail' := items[rid := Chunk(next, Piece(s, i))], [rid] + tail;
    forall j | 0 <= j < |tail'|
      ensures tail'[j] in items' && tail'[j].block_addr >= 0
        && items'[tail'[j]] == Chunk(Next(tail', j), Piece(s, i + j))
    {
      if j > 0 {
        assert tail'[j] == tail[j - 1] && Next(tail', j) == Next(tail, j - 1) && i + 1 + (j - 1) == i + j;
      }
    }
  }

  lemma DistinctMore(tail: seq<RID>, rid: RID)
    requires Distinct(tail) && rid !in tail
    ensures Distinct([rid] + tail)
  {
  }

  lemma CharsMore(data: String, from: nat, to: nat)
    requires from <= to < |data|
    ensures Chars(data[from..to + 1]) == Chars(data[from..to]) + [data[to]]
  {
  }

  /** Fill a chunk with `size` characters of the data. */
  method BuildChunk(rid: RID, data: String, from: nat, size: nat) returns (chunk: seq<Cell>)
    requires from + size <= |data|
    ensures chunk == Chunk(rid, data[from..from + size])
  {
    hide Chars, RidCells;
    chunk := RidCells(rid) + [size, 0];
    for j := 0 to size
      invariant chunk == RidCells(rid) + [size, 0] + Chars(data[from..from + j])
    {
      CharsMore(data, from, from + j);
      chunk := chunk + [data[from + j]];
    }
  }

  /** write_string: nothing else in the table changes. */
  method WriteString(table: Table, data: String) returns (rid: RID, ghost chain: seq<RID>)
    requires table.Valid()
    modifies table.Repr
    ensures table.Valid() && Spells(table.items, chain, data) && chain != [] && rid == chain[0] && rid.block_addr >= 0
    ensures table.items - Rids(chain) == old(table.items) && Rids(chain) !! old(table.items).Keys
  {
    hide Table.Valid, Spells, SpellsFrom, Chunk, Piece;
    var num, last_size := 1, 0;
    if data != [] {
      num, last_size := (|data| - 1) / STR_CHUNK_MAX_LEN + 1, (|data| - 1) % STR_CHUNK_MAX_LEN + 1;
    }
    rid, chain := NO_RID, [];
    WrittenNone(table.items, data, num);
    for i := num downto 0
      modifies table.Repr
      invariant table.Valid() && SpellsFrom(table.items, chain, data, i)
      invariant rid == (if chain == [] then NO_RID else chain[0]) && (chain == [] <==> i == num)
        && (chain != [] ==> rid.block_addr >= 0)
      invariant table.items - Rids(chain) == old(table.items) && Rids(chain) !! old(table.items).Keys
    {
      var size := if i == num - 1 then last_size else STR_CHUNK_MAX_LEN;
      SizeOf(data, i, num, last_size);
      rid, chain := WriteChunk(table, data, rid, i, STR_CHUNK_MAX_LEN * i, size, chain);
    }
    SpellsAll(table.items, chain, data);
  }

  lemma WrittenNone(items: Items, s: String, num: nat)
    requires num == Chunks(|s|)
    ensures SpellsFrom(items, [], s, num)
    ensures items - Rids([]) == items && Rids([]) == {}
  {
  }

  /** The size that write_string computes for chunk i. */
  lemma SizeOf(s: String, i: nat, num: nat, last_size: nat)
    requires i < num == Chunks(|s|) && last_size == if |s| == 0 then 0 else (|s| - 1) % STR_CHUNK_MAX_LEN + 1
    ensures
      var size := if i == num - 1 then last_size else STR_CHUNK_MAX_LEN;
      && size <= STR_CHUNK_MAX_LEN && STR_CHUNK_MAX_LEN * i + size <= |s|
      && Piece(s, i) == s[STR_CHUNK_MAX_LEN * i..STR_CHUNK_MAX_LEN * i + size]
  {
  }

  method WriteChunk(table: Table, data: String, next: RID, ghost i: nat, from: nat, size: nat, ghost tail: seq<RID>)
    returns (rid: RID, ghost chain: seq<RID>)
    requires table.Valid() && SpellsFrom(table.items, tail, data, i + 1)
      && next == if tail == [] then NO_RID else tail[0]
    requires size <= STR_CHUNK_MAX_LEN && from + size <= |data| && Piece(data, i) == data[from..from + size]
    modifies table.Repr
    ensures table.Valid() && SpellsFrom(table.items, chain, data, i) && chain == [rid] + tail && rid.block_addr >= 0
    ensures rid !in old(table.items) && table.items.Keys == old(table.items).Keys + {rid}
      && table.items - {rid} == old(table.items)
  {
    hide Table.Valid, SpellsFrom, Chunk, Piece;
    var chunk := BuildChunk(next, data, from, size);
    rid := table.Insert(chunk);
    SpellsMore(old(table.items), tail, data, i, rid);
    chain := [rid] + tail;
    assert table.items - {rid} == old(table.items);
  }

  // ---- deletion

  /** delete_string: exactly the chunks of the string go. */
  method DeleteString(table: Table, rid: RID, ghost chain: seq<RID>, ghost s: String)
    requires table.Valid() && Spells(table.items, chain, s) && chain != [] && rid == chain[0]
    modifies table.Repr
    ensures table.Valid() && table.items == old(table.items) - Rids(chain)
  {
    hide Table.Valid, Spells;
    var now := rid;
    ghost var i := 0;
    assert Rids(chain[..0]) == {};
    while true
      modifies table.Repr
      invariant table.Valid() && i < |chain| && now == chain[i] && table.items == old(table.items) - Rids(chain[..i])
      decreases |chain| - i
    {
      ChunkOf(old(table.items), chain, s, i);
      var chunk := table.Read(now);
      var next := RidAt(chunk, 0);
      table.Delete(now);
      i := i + 1;
      if next.block_addr == -1 {
        break;
      }
      now := next;
    }
    assert chain[..i] == chain;
  }

  lemma ChunkOf(items: Items, chain: seq<RID>, s: String, i: nat)
    requires Spells(items, chain, s) && i < |chain|
    ensures chain[i] in items && chain[i] !in Rids(chain[..i]) && Rids(chain[..i + 1]) == Rids(chain[..i]) + {chain[i]}
    ensures |items[chain[i]]| >= RID_SIZE && RidAt(items[chain[i]], 0) == Next(chain, i)
    ensures i + 1 < |chain| ==> chain[i + 1].block_addr >= 0
  {
    hide Chunks, Piece, Chunk;
    assert ChunkAt(items, chain, s, i);
    if i + 1 < |chain| {
      assert ChunkAt(items, chain, s, i + 1);
    }
    assert chain[..i + 1] == chain[..i] + [chain[i]];
  }
}
