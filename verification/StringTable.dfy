/** The table of strings with who owns which chunk: the strings are the disjoint chains that
    their root chunks start, and no chunk is left over. */
module StringTables {
  import opened Common
  import opened KeyOrder
  import opened HashChains
  import opened Tables
  import opened Strings

  type Texts = map<RID, String>

  ghost predicate TextAt(items: Items, chain: seq<RID>, root: RID, s: String) {
    Spells(items, chain, s) && chain != [] && chain[0] == root
  }

  ghost predicate Owns(owner: map<RID, RID>, chain: seq<RID>, root: RID) {
    forall c :: c in chain ==> c in owner && owner[c] == root
  }

  /** `chains` gives the chunks of every string, `owner` the string of every chunk. */
  ghost predicate TextsOk(items: Items, texts: Texts, chains: map<RID, seq<RID>>, owner: map<RID, RID>) {
    && chains.Keys == texts.Keys && owner.Keys == items.Keys
    && (forall t :: t in texts ==> TextAt(items, chains[t], t, texts[t]) && Owns(owner, chains[t], t))
    && (forall c :: c in owner ==> owner[c] in chains && c in chains[owner[c]])
  }

  lemma TextWritten(items: Items, texts: Texts, chains: map<RID, seq<RID>>, owner: map<RID, RID>, chain: seq<RID>,
      s: String, items': Items)
    requires TextsOk(items, texts, chains, owner)
    requires items' - Rids(chain) == items && Rids(chain) !! items.Keys && Spells(items', chain, s) && chain != []
    ensures chain[0] !in texts
    ensures
      var root := chain[0];
      TextsOk(items', texts[root := s], chains[root := chain], owner + map c | c in Rids(chain) :: root)
  {
    hide Spells;
    var root := chain[0];
    assert root in Rids(chain);
    if root in texts {
      assert Owns(owner, chains[root], root) && root in chains[root];
    }
    var owner' := owner + map c | c in Rids(chain) :: root;
    SpelledRids(items', chain, s);
    forall t | t in texts ensures TextAt(items', chains[t], t, texts[t]) && Owns(owner', chains[t], t) {
      assert TextAt(items, chains[t], t, texts[t]) && Owns(owner, chains[t], t);
      SpellsKept(items, chains[t], texts[t], items');
    }
    assert owner'.Keys == items'.Keys;
  }

  lemma SpelledRids(items: Items, chain: seq<RID>, s: String)
    requires Spells(items, chain, s)
    ensures Rids(chain) <= items.Keys
  {
    forall i | 0 <= i < |chain| ensures chain[i] in items {
      assert ChunkAt(items, chain, s, i);
    }
  }

  lemma TextErased(items: Items, texts: Texts, chains: map<RID, seq<RID>>, owner: map<RID, RID>, root: RID)
    requires TextsOk(items, texts, chains, owner) && root in texts
    ensures
      var gone := Rids(chains[root]);
      TextsOk(items - gone, texts - {root}, chains - {root}, owner - gone)
  {
    hide Spells;
    var gone := Rids(chains[root]);
    assert Owns(owner, chains[root], root);
    forall t | t in texts && t != root
      ensures TextAt(items - gone, chains[t], t, texts[t]) && Owns(owner - gone, chains[t], t)
    {
      assert TextAt(items, chains[t], t, texts[t]) && Owns(owner, chains[t], t);
      SpellsKept(items, chains[t], texts[t], items - gone);
    }
  }

  /** Two closed files hold the strings. */
  ghost predicate StringFiles(data: seq<Page>, fsm: seq<HPage>, texts: Texts) {
    exists items, chains, owner :: TableFiles(data, fsm, items) && TextsOk(items, texts, chains, owner)
  }

  class StringTable {
    const table: Table
    ghost var texts: Texts
    ghost var chains: map<RID, seq<RID>>
    ghost var owner: map<RID, RID>
    ghost const Repr: set<object>

    ghost predicate Valid()
      reads this, Repr
      ensures Valid() ==> this in Repr
    {
      && Repr == {this} + table.Repr && table in Repr && this !in table.Repr
      && table.Valid() && TextsOk(table.items, texts, chains, owner)
    }

    constructor Init()
      ensures Valid() && fresh(Repr) && texts == map[]
    {
      hide Table.Valid;
      var t := new Table.Init();
      table, texts, chains, owner := t, map[], map[], map[];
      Repr := {this} + t.Repr;
    }

    method Close() returns (data_file: seq<Page>, fsm_file: seq<HPage>)
      requires Valid()
      modifies Repr
      ensures StringFiles(data_file, fsm_file, old(texts))
    {
      hide Table.Valid, TextsOk, TableFiles;
      ghost var items := table.items;
      data_file, fsm_file := table.Close();
    }

    constructor Reopen(data_file: seq<Page>, fsm_file: seq<HPage>, ghost texts: Texts)
      requires StringFiles(data_file, fsm_file, texts)
      ensures Valid() && fresh(Repr) && this.texts == texts
    {
      hide Table.Valid, TextsOk, TableFiles;
      ghost var items, chains, owner :| TableFiles(data_file, fsm_file, items) && TextsOk(items, texts, chains, owner);
      var t := new Table.Reopen(data_file, fsm_file, items);
      table, this.texts, this.chains, this.owner := t, texts, chains, owner;
      Repr := {this} + t.Repr;
    }

    lemma TextFacts(root: RID)
      requires TextsOk(table.items, texts, chains, owner)
      ensures root in texts ==>
        root in chains && Spells(table.items, chains[root], texts[root]) && chains[root] != []
        && chains[root][0] == root
    {
      assert root in texts ==> TextAt(table.items, chains[root], root, texts[root]);
    }

    method Write(data: String) returns (rid: RID)
      requires Valid()
      modifies Repr
      ensures Valid() && rid !in old(texts) && texts == old(texts)[rid := data] && rid.block_addr >= 0
    {
      hide Table.Valid, TextsOk, Spells;
      ghost var chain;
      rid, chain := WriteString(table, data);
      TextWritten(old(table.items), texts, chains, owner, chain, data, table.items);
      texts, chains, owner := texts[rid := data], chains[rid := chain], owner + map c | c in Rids(chain) :: rid;
    }

    method Erase(rid: RID)
      requires Valid() && rid in texts
      modifies Repr
      ensures Valid() && texts == old(texts) - {rid}
    {
      hide Table.Valid, TextsOk, Spells;
      TextFacts(rid);
      TextErased(table.items, texts, chains, owner, rid);
      ghost var gone := chains[rid];
      DeleteString(table, rid, gone, texts[rid]);
      texts, chains, owner := texts - {rid}, chains - {rid}, owner - Rids(gone);
    }

    /** The record is a cursor at the start of the string at root. */
    ghost predicate AtStart(record: StringRecord, root: RID)
      reads this, table, record
    {
      && root in texts && root in chains && chains[root] != [] && chains[root][0] == root
      && record.On(table.items, chains[root], texts[root]) && record.idx == 0 && record.pos == 0
    }

    method Open(root: RID, record: StringRecord)
      requires Valid() && root in texts && record !in Repr
      modifies Repr, record
      ensures Valid() && texts == old(texts) && chains == old(chains) && table.items == old(table.items)
        && AtStart(record, root)
    {
      hide Table.Valid, TextsOk, Spells, Standing;
      TextFacts(root);
      OpenString(table, root, record, chains[root], texts[root]);
    }

    /** compare_string_record on two cursors at the start. */
    method CompareStrings(a: StringRecord, ra: RID, b: StringRecord, rb: RID) returns (c: int)
      requires Valid() && AtStart(a, ra) && AtStart(b, rb) && a != b && a !in Repr && b !in Repr
      modifies Repr, a, b
      ensures Valid() && texts == old(texts) && c == Compare(texts[ra], texts[rb])
    {
      hide Table.Valid, TextsOk, Spells, Standing, Compare;
      c := CompareStringRecord(table, a, b, chains[ra], texts[ra], chains[rb], texts[rb]);
      assert texts[ra][0..] == texts[ra] && texts[rb][0..] == texts[rb];
    }

    method SizeOf(record: StringRecord, root: RID) returns (ans: nat)
      requires Valid() && AtStart(record, root) && record !in Repr
      modifies Repr, record
      ensures Valid() && texts == old(texts) && AtStart(record, root) && ans == |texts[root]|
    {
      hide Table.Valid, TextsOk, Spells, Standing;
      ans := GetStringSize(table, record, root, chains[root], texts[root]);
    }

    method Load(record: StringRecord, root: RID, dest: array<Char>, max_size: nat) returns (n: nat)
      requires Valid() && AtStart(record, root) && record !in Repr && dest !in Repr && dest.Length >= max_size
      modifies Repr, record, dest
      ensures Valid() && texts == old(texts)
      ensures n == if |texts[root]| <= max_size then |texts[root]| else max_size
      ensures dest[..] == texts[root][..n] + old(dest[..])[n..]
    {
      hide Table.Valid, TextsOk, Spells, Standing;
      n := LoadString(table, record, dest, max_size, chains[root], texts[root]);
    }
  }
}
