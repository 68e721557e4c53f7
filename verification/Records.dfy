/** Records (src/myjql.c): a key string and a value string each, and the callbacks through
    which the tree compares, copies and drops keys. */
module RecordStores {
  import opened Common
  import opened KeyOrder
  import opened HashChains
  import opened Tables
  import opened Strings
  import opened StringTables

  /** The struct Record: the roots of the key and of the value. */
  datatype Record = Record(key: RID, value: RID)

  function RecordCells(re: Record): seq<Cell> {
    RidCells(re.key) + RidCells(re.value)
  }

  type Refs = map<RID, Record>

  /** The items of the record table are the records. */
  ghost predicate RecsOk(items: Items, refs: Refs, recs: Records) {
    && items.Keys == refs.Keys == recs.Keys
    && forall r :: r in recs ==>
      r.block_addr >= 0 && recs[r].rank == Rank(recs[r].key) && items[r] == RecordCells(refs[r])
  }

  /** The strings that record r refers to are its key and its value, and they are its own. */
  ghost predicate RefOk(re: Record, e: Entry, texts: Texts, user: map<RID, RID>, r: RID) {
    && re.key in texts && texts[re.key] == e.key && re.key in user && user[re.key] == r
    && if e.value.None? then re.value == NO_RID
       else
         && re.value != re.key && re.value in texts && texts[re.value] == e.value.value
         && re.value in user && user[re.value] == r
  }

  ghost predicate Refers(re: Record, e: Entry, t: RID) {
    t == re.key || (e.value.Some? && t == re.value)
  }

  /** Every string but those in `hand` is used by exactly one record, as its key or value. */
  ghost predicate RefsOk(refs: Refs, recs: Records, texts: Texts, user: map<RID, RID>, hand: set<RID>) {
    && refs.Keys == recs.Keys
    && (forall r :: r in recs ==> RefOk(refs[r], recs[r], texts, user, r))
    && texts.Keys == user.Keys + hand && user.Keys !! hand
    && (forall t :: t in user ==> user[t] in recs && Refers(refs[user[t]], recs[user[t]], t))
  }

  // ---- the steps of the operations

  lemma TextAdded(refs: Refs, recs: Records, texts: Texts, user: map<RID, RID>, hand: set<RID>, t: RID, s: String)
    requires RefsOk(refs, recs, texts, user, hand) && t !in texts
    ensures RefsOk(refs, recs, texts[t := s], user, hand + {t})
  {
    forall r | r in recs ensures RefOk(refs[r], recs[r], texts[t := s], user, r) {
      assert RefOk(refs[r], recs[r], texts, user, r);
    }
  }

  lemma TextRemoved(refs: Refs, recs: Records, texts: Texts, user: map<RID, RID>, hand: set<RID>, t: RID)
    requires RefsOk(refs, recs, texts, user, hand) && t in hand
    ensures RefsOk(refs, recs, texts - {t}, user, hand - {t})
  {
    forall r | r in recs ensures RefOk(refs[r], recs[r], texts - {t}, user, r) {
      assert RefOk(refs[r], recs[r], texts, user, r);
    }
  }

  ghost function Uses(re: Record, e: Entry): set<RID> {
    if e.value.Some? then {re.key, re.value} else {re.key}
  }

  lemma RecordAdded(refs: Refs, recs: Records, texts: Texts, user: map<RID, RID>, hand: set<RID>, r: RID, re: Record,
      e: Entry)
    requires RefsOk(refs, recs, texts, user, hand) && r !in recs
    requires Uses(re, e) <= hand && texts[re.key] == e.key
    requires if e.value.None? then re.value == NO_RID else re.value != re.key && texts[re.value] == e.value.value
    ensures RefsOk(refs[r := re], recs[r := e], texts, user + map t | t in Uses(re, e) :: r, hand - Uses(re, e))
  {
    var own := Uses(re, e);
    var user' := user + map t | t in own :: r;
    assert user'.Keys == user.Keys + own;
    assert RefOk(re, e, texts, user', r);
    forall t | t in user' ensures user'[t] in recs[r := e]
      && Refers(refs[r := re][user'[t]], recs[r := e][user'[t]], t) {
      if t !in own {
        assert user[t] in recs && Refers(refs[user[t]], recs[user[t]], t);
      }
    }
    forall q | q in recs ensures RefOk(refs[q], recs[q], texts, user', q) {
      assert RefOk(refs[q], recs[q], texts, user, q);
    }
  }

  lemma RecordRemoved(refs: Refs, recs: Records, texts: Texts, user: map<RID, RID>, hand: set<RID>, r: RID)
    requires RefsOk(refs, recs, texts, user, hand) && r in recs
    ensures
      var own := Uses(refs[r], recs[r]);
      && own !! hand && own <= texts.Keys
      && RefsOk(refs - {r}, recs - {r}, texts, user - own, hand + own)
  {
    var own := Uses(refs[r], recs[r]);
    assert RefOk(refs[r], recs[r], texts, user, r);
    forall q | q in recs && q != r ensures RefOk(refs[q], recs[q], texts, user - own, q) {
      assert RefOk(refs[q], recs[q], texts, user, q);
    }
    forall t | t in user && t !in own ensures user[t] in recs - {r} {
      assert user[t] in recs && Refers(refs[user[t]], recs[user[t]], t);
    }
  }

  /** The data and free-space files of the two tables. */
  datatype StoreFiles = StoreFiles(rec_data: seq<Page>, rec_fsm: seq<HPage>, str_data: seq<Page>, str_fsm: seq<HPage>)

  /** Closed files hold the records. */
  ghost predicate RecordFiles(files: StoreFiles, recs: Records) {
    exists items, refs, texts, user ::
      && TableFiles(files.rec_data, files.rec_fsm, items) && RecsOk(items, refs, recs)
      && StringFiles(files.str_data, files.str_fsm, texts) && RefsOk(refs, recs, texts, user, {})
  }

  class RecordStore {
    const tbl_rec: Table
    const tbl_str: StringTable
    ghost var recs: Records
    ghost var refs: Refs
    ghost var user: map<RID, RID>
    ghost const Repr: set<object>

    ghost predicate Open()
      reads this, Repr
    {
      && Repr == {this} + tbl_rec.Repr + tbl_str.Repr && tbl_rec in Repr && tbl_str in Repr
      && tbl_rec.Repr !! tbl_str.Repr && this !in tbl_rec.Repr && this !in tbl_str.Repr
      && tbl_rec.Valid() && tbl_str.Valid()
    }

    ghost predicate Valid()
      reads this, Repr
      ensures Valid() ==> this in Repr
      ensures Valid() ==> forall r :: r in recs ==> r.block_addr >= 0 && recs[r].rank == Rank(recs[r].key)
    {
      Open() && RecsOk(tbl_rec.items, refs, recs) && RefsOk(refs, recs, tbl_str.texts, user, {})
    }

    /** The two tables of myjql_init. */
    constructor Init()
      ensures Valid() && fresh(Repr) && recs == map[]
    {
      hide Table.Valid, StringTable.Valid;
      var records := new Table.Init();
      var strings := new StringTable.Init();
      tbl_rec, tbl_str, recs, refs, user := records, strings, map[], map[], map[];
      Repr := {this} + records.Repr + strings.Repr;
    }

    /** The tables' part of myjql_close. */
    method Close() returns (files: StoreFiles)
      requires Valid()
      modifies Repr
      ensures RecordFiles(files, old(recs))
    {
      hide Table.Valid, StringTable.Valid, TableFiles, StringFiles, RecsOk, RefsOk;
      ghost var items, texts := tbl_rec.items, tbl_str.texts;
      var rec_data, rec_fsm := tbl_rec.Close();
      var str_data, str_fsm := tbl_str.Close();
      files := StoreFiles(rec_data, rec_fsm, str_data, str_fsm);
    }

    constructor Reopen(files: StoreFiles, ghost recs: Records)
      requires RecordFiles(files, recs)
      ensures Valid() && fresh(Repr) && this.recs == recs
    {
      hide Table.Valid, StringTable.Valid, TableFiles, StringFiles, RecsOk, RefsOk;
      ghost var items, refs, texts, user :|
        && TableFiles(files.rec_data, files.rec_fsm, items) && RecsOk(items, refs, recs)
        && StringFiles(files.str_data, files.str_fsm, texts) && RefsOk(refs, recs, texts, user, {});
      var records := new Table.Reopen(files.rec_data, files.rec_fsm, items);
      var strings := new StringTable.Reopen(files.str_data, files.str_fsm, texts);
      tbl_rec, tbl_str, this.recs, this.refs, this.user := records, strings, recs, refs, user;
      Repr := {this} + records.Repr + strings.Repr;
      new;
      Shown();
    }

    /** Valid, from its parts. */
    lemma Shown()
      requires Open() && RecsOk(tbl_rec.items, refs, recs) && RefsOk(refs, recs, tbl_str.texts, user, {})
      ensures Valid()
    {
    }

    // ---- records

    method ReadRecord(rid: RID) returns (re: Record)
      requires Valid() && rid in recs
      modifies tbl_rec.Repr
      ensures Valid() && tbl_rec.items == old(tbl_rec.items) && rid in refs && re == refs[rid]
    {
      hide Table.Valid, StringTable.Valid, RefsOk, Rank;
      var cells := tbl_rec.Read(rid);
      re := Record(RidAt(cells, 0), RidAt(cells, RID_SIZE));
    }

    lemma RecordFacts(r: RID)
      requires RefsOk(refs, recs, tbl_str.texts, user, {}) && r in recs
      ensures r in refs && refs[r].key in tbl_str.texts && tbl_str.texts[refs[r].key] == recs[r].key
      ensures recs[r].value.Some? ==>
        refs[r].value in tbl_str.texts && tbl_str.texts[refs[r].value] == recs[r].value.value
          && refs[r].value != refs[r].key
    {
      assert RefOk(refs[r], recs[r], tbl_str.texts, user, r);
    }

    // ---- comparison

    /** read_string on two roots, and compare_string_record. */
    method CompareRoots(ra: RID, rb: RID) returns (c: int)
      requires tbl_str.Valid() && ra in tbl_str.texts && rb in tbl_str.texts
      modifies tbl_str.Repr
      ensures tbl_str.Valid() && tbl_str.texts == old(tbl_str.texts)
        && c == Compare(tbl_str.texts[ra], tbl_str.texts[rb])
    {
      hide StringTable.Valid, Compare, Spells, Standing;
      var sre_a := new StringRecord();
      var sre_b := new StringRecord();
      tbl_str.Open(ra, sre_a);
      tbl_str.Open(rb, sre_b);
      c := tbl_str.CompareStrings(sre_a, ra, sre_b, rb);
    }

    /** rid_row_row_cmp. */
    method CompareRecords(a: RID, b: RID) returns (c: int)
      requires Valid() && a in recs && b in recs
      modifies Repr
      ensures Valid() && recs == old(recs)
      ensures c == if recs[a].rank > recs[b].rank then 1 else if recs[a].rank == recs[b].rank then 0 else -1
    {
      hide Table.Valid, StringTable.Valid, RefsOk, RecsOk, Rank, Compare;
      RecordFacts(a);
      RecordFacts(b);
      var re_a := ReadRecord(a);
      var re_b := ReadRecord(b);
      c := CompareRoots(re_a.key, re_b.key);
      CompareRank(recs[a].key, recs[b].key);
    }

    /** The first max_size characters of a string. */
    method LoadRoot(root: RID, dest: array<Char>, max_size: nat) returns (n: nat)
      requires tbl_str.Valid() && root in tbl_str.texts && dest !in tbl_str.Repr && dest.Length >= max_size
      modifies tbl_str.Repr, dest
      ensures tbl_str.Valid() && tbl_str.texts == old(tbl_str.texts)
      ensures
        var s := tbl_str.texts[root];
        n == (if |s| <= max_size then |s| else max_size) && dest[..] == s[..n] + old(dest[..])[n..]
    {
      hide StringTable.Valid, Spells, Standing;
      var sre := new StringRecord();
      tbl_str.Open(root, sre);
      n := tbl_str.Load(sre, root, dest, max_size);
    }

    /** rid_ptr_row_cmp: two characters more than the key has are enough to load. */
    method CompareKey(key: String, b: RID) returns (c: int)
      requires Valid() && b in recs
      modifies Repr
      ensures Valid() && recs == old(recs)
      ensures c == if Rank(key) > recs[b].rank then 1 else if Rank(key) == recs[b].rank then 0 else -1
    {
      hide Table.Valid, StringTable.Valid, RefsOk, RecsOk, Rank, Compare;
      RecordFacts(b);
      var s := new Char[|key| + 3];
      var re_b := ReadRecord(b);
      var n := LoadRoot(re_b.key, s, |key| + 2);
      c := CompareLoaded(key, s, n, recs[b].key);
      CompareRank(key, recs[b].key);
      RankOf(b);
    }

    lemma RankOf(r: RID)
      requires RecsOk(tbl_rec.items, refs, recs) && r in recs
      ensures recs[r].rank == Rank(recs[r].key)
    {
    }

    // ---- strings and records come and go

    /** In the middle of an operation: the strings of `hand` belong to no record. */
    ghost predicate Mid(hand: set<RID>)
      reads this, Repr
    {
      Open() && RefsOk(refs, recs, tbl_str.texts, user, hand)
    }

    method WriteText(s: String, ghost hand: set<RID>) returns (t: RID)
      requires Mid(hand)
      modifies tbl_str.Repr
      ensures Mid(hand + {t}) && t !in old(tbl_str.texts) && tbl_str.texts == old(tbl_str.texts)[t := s]
    {
      hide Table.Valid, StringTable.Valid, RefsOk;
      t := tbl_str.Write(s);
      TextAdded(refs, recs, old(tbl_str.texts), user, hand, t, s);
    }

    method EraseText(t: RID, ghost hand: set<RID>)
      requires Mid(hand) && t in hand
      modifies tbl_str.Repr
      ensures Mid(hand - {t}) && tbl_str.texts == old(tbl_str.texts) - {t}
    {
      hide Table.Valid, StringTable.Valid, RefsOk;
      HandTexts(hand);
      TextRemoved(refs, recs, tbl_str.texts, user, hand, t);
      tbl_str.Erase(t);
    }

    lemma HandTexts(hand: set<RID>)
      requires RefsOk(refs, recs, tbl_str.texts, user, hand)
      ensures hand <= tbl_str.texts.Keys
    {
    }

    /** write_record: the strings in hand become those of a new record. */
    method WriteRecord(re: Record, ghost e: Entry, ghost hand: set<RID>) returns (rid: RID)
      requires Mid(hand) && RecsOk(tbl_rec.items, refs, recs) && e.rank == Rank(e.key)
      requires Uses(re, e) == hand && re.key in tbl_str.texts && tbl_str.texts[re.key] == e.key
      requires if e.value.None? then re.value == NO_RID
               else re.value != re.key && re.value in tbl_str.texts && tbl_str.texts[re.value] == e.value.value
      modifies Repr
      ensures Valid() && rid !in old(recs) && recs == old(recs)[rid := e] && rid.block_addr >= 0
    {
      hide Table.Valid, StringTable.Valid, RefsOk, Rank, RecsOk;
      rid := tbl_rec.Insert(RecordCells(re));
      Entered(old(tbl_rec.items), rid, re, e);
      RecordAdded(refs, recs, tbl_str.texts, user, hand, rid, re, e);
      assert hand - Uses(re, e) == {};
      refs, recs, user := refs[rid := re], recs[rid := e], user + map t | t in Uses(re, e) :: rid;
    }

    lemma Entered(items: Items, rid: RID, re: Record, e: Entry)
      requires RecsOk(items, refs, recs) && rid !in items && rid.block_addr >= 0 && e.rank == Rank(e.key)
      ensures rid !in recs && RecsOk(items[rid := RecordCells(re)], refs[rid := re], recs[rid := e])
    {
    }

    /** delete_record: takes the record out of the table once its strings are nobody's. */
    method DeleteRecord(rid: RID, ghost hand: set<RID>, ghost was: Records, ghost had: Refs)
      requires Mid(hand) && RecsOk(tbl_rec.items, had, was) && rid in was
      requires refs == had - {rid} && recs == was - {rid}
      modifies tbl_rec.Repr
      ensures Mid(hand) && RecsOk(tbl_rec.items, refs, recs)
    {
      hide Table.Valid, StringTable.Valid, RefsOk, Rank;
      tbl_rec.Delete(rid);
    }

    /** The strings of a record come to hand; the record is still in its table. */
    ghost method Disown(rid: RID)
      requires Valid() && rid in recs
      modifies this`refs, this`recs, this`user
      ensures rid in old(refs) && refs == old(refs) - {rid} && recs == old(recs) - {rid}
      ensures Mid(Uses(old(refs)[rid], old(recs)[rid]))
    {
      hide Table.Valid, StringTable.Valid, RefsOk, Rank, RecsOk;
      RecordFacts(rid);
      var own := Uses(refs[rid], recs[rid]);
      RecordRemoved(refs, recs, tbl_str.texts, user, {}, rid);
      assert {} + own == own;
      refs, recs, user := refs - {rid}, recs - {rid}, user - own;
    }

    // ---- the callbacks that copy and drop separators

    /** A new string equal to the one at root. */
    method CopyRoot(root: RID, ghost hand: set<RID>) returns (t: RID)
      requires Mid(hand) && root in tbl_str.texts
      modifies tbl_str.Repr
      ensures Mid(hand + {t}) && t !in old(tbl_str.texts)
        && tbl_str.texts == old(tbl_str.texts)[t := old(tbl_str.texts)[root]]
    {
      hide Table.Valid, StringTable.Valid, RefsOk, Spells, Standing;
      var sre := new StringRecord();
      tbl_str.Open(root, sre);
      var max_size := tbl_str.SizeOf(sre, root);
      var s := new Char[max_size + 2];
      var n := tbl_str.Load(sre, root, s, max_size + 1);
      assert s[..n] == s[..][..n] == tbl_str.texts[root];
      t := WriteText(s[..n], hand);
    }

    /** insert_handler: a record with a copy of the key and no value. */
    method InsertHandler(rid: RID) returns (copy: RID)
      requires Valid() && rid in recs
      modifies Repr
      ensures Valid() && copy !in old(recs)
        && recs == old(recs)[copy := Entry(old(recs)[rid].key, old(recs)[rid].rank, None)]
    {
      hide Table.Valid, StringTable.Valid, RefsOk, Rank, RecsOk;
      RecordFacts(rid);
      RankOf(rid);
      var re := ReadRecord(rid);
      var rid_key := CopyRoot(re.key, {});
      copy := WriteRecord(Record(rid_key, NO_RID), Entry(recs[rid].key, recs[rid].rank, None), {} + {rid_key});
    }

    /** delete_handler: drops a record that has no value, with its key. */
    method DeleteHandler(rid: RID)
      requires Valid() && rid in recs && recs[rid].value.None?
      modifies Repr
      ensures Valid() && recs == old(recs) - {rid}
    {
      hide Table.Valid, StringTable.Valid, RefsOk, Rank, RecsOk;
      var re := ReadRecord(rid);
      ghost var was, had := recs, refs;
      Disown(rid);
      EraseText(re.key, {re.key});
      assert {re.key} - {re.key} == {};
      DeleteRecord(rid, {}, was, had);
    }

    // ---- the records of keys with values

    /** The new record of myjql_set. */
    method NewRecord(key: String, value: String) returns (rid: RID)
      requires Valid()
      modifies Repr
      ensures Valid() && rid !in old(recs) && recs == old(recs)[rid := Entry(key, Rank(key), Some(value))]
        && rid.block_addr >= 0
    {
      hide Table.Valid, StringTable.Valid, RefsOk, Rank, RecsOk;
      var rid_key := WriteText(key, {});
      var rid_value := WriteText(value, {} + {rid_key});
      rid := WriteRecord(Record(rid_key, rid_value), Entry(key, Rank(key), Some(value)), {} + {rid_key} + {rid_value});
    }

    /** What myjql_set does to the record of a key that is there: the value string is replaced,
        and so is the record. */
    method ReplaceValue(rid: RID, value: String) returns (rid': RID)
      requires Valid() && rid in recs && recs[rid].value.Some?
      modifies Repr
      ensures Valid() && rid' !in old(recs) - {rid} && rid'.block_addr >= 0
      ensures recs == (old(recs) - {rid})[rid' := old(recs)[rid].(value := Some(value))]
    {
      hide Table.Valid, StringTable.Valid, RefsOk, Rank, RecsOk;
      RecordFacts(rid);
      RankOf(rid);
      ghost var was, had := recs, refs;
      var re := ReadRecord(rid);
      Disown(rid);
      EraseText(re.value, {re.key, re.value});
      var rid_value := WriteText(value, {re.key, re.value} - {re.value});
      ghost var hand := {re.key, re.value} - {re.value} + {rid_value};
      DeleteRecord(rid, hand, was, had);
      rid' := WriteRecord(Record(re.key, rid_value), was[rid].(value := Some(value)), hand);
    }

    /** What myjql_del does to the record of a key that is there. */
    method DropRecord(rid: RID)
      requires Valid() && rid in recs && recs[rid].value.Some?
      modifies Repr
      ensures Valid() && recs == old(recs) - {rid}
    {
      hide Table.Valid, StringTable.Valid, RefsOk, Rank, RecsOk;
      RecordFacts(rid);
      ghost var was, had := recs, refs;
      var re := ReadRecord(rid);
      Disown(rid);
      EraseText(re.key, {re.key, re.value});
      EraseText(re.value, {re.key, re.value} - {re.key});
      assert {re.key, re.value} - {re.key} - {re.value} == {};
      DeleteRecord(rid, {}, was, had);
    }

    /** The value of a record: its length, and its first max_size characters in `dest`. */
    method ReadValue(rid: RID, dest: array<Char>, max_size: nat) returns (ans: nat)
      requires Valid() && rid in recs && recs[rid].value.Some? && dest !in Repr && dest.Length >= max_size
      modifies Repr, dest
      ensures Valid() && recs == old(recs)
      ensures
        var v := recs[rid].value.value;
        var n := if |v| <= max_size then |v| else max_size;
        ans == |v| && dest[..] == v[..n] + old(dest[..])[n..]
    {
      hide Table.Valid, StringTable.Valid, RefsOk, Rank, RecsOk, Spells, Standing;
      RecordFacts(rid);
      var re := ReadRecord(rid);
      var sre := new StringRecord();
      tbl_str.Open(re.value, sre);
      ans := tbl_str.SizeOf(sre, re.value);
      var _ := tbl_str.Load(sre, re.value, dest, max_size);
    }
  }

  /** The loop of rid_ptr_row_cmp: `s` holds the first n characters of `whole`. */
  method CompareLoaded(t: String, s: array<Char>, n: nat, ghost whole: String) returns (c: int)
    requires n == if |whole| <= |t| + 2 then |whole| else |t| + 2
    requires n <= s.Length && s[..n] == whole[..n]
    ensures c == Compare(t, whole)
  {
    hide Compare, Less;
    var i := 0;
    while i < |t| && i < n
      invariant i <= |t| && i <= n && Compare(t, whole) == Compare(t[i..], whole[i..])
    {
      CompareStep(t[i..], whole[i..]);
      assert t[i..][1..] == t[i + 1..] && whole[i..][1..] == whole[i + 1..];
      assert s[i] == s[..n][i];
      if t[i] > s[i] {
        return 1;
      } else if t[i] < s[i] {
        return -1;
      }
      i := i + 1;
    }
    CompareEnd(t[i..], whole[i..]);
    c := if |t| > n then 1 else if |t| < n then -1 else 0;
  }
}
