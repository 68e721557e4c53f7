/** Vocabulary shared by every layer of the store. */
module Common {

  datatype Option<+T> = None | Some(value: T)

  /** Bytes of a page. */
  const PAGE_SIZE := 128

  /** One memory cell of a page or of an item: one byte of the original.  A field that spans
      several bytes keeps its value in its first cell and zero in the others, because
      overflow of those fields is not modelled; the sizes are those of the original. */
  type Cell = int

  /** A character of a key or of a value (a signed `char`). */
  type Char = c: int | -128 <= c < 128

  type String = seq<Char>

  /** Record id: the block an item lives in and its slot there.  Addresses are counted in
      pages, so the file offset `k * PAGE_SIZE` is the number `k`; -1 is "no page". */
  datatype RID = RID(block_addr: int, idx: int)

  const NO_RID := RID(-1, -1)

  /** What the tree answers where no entry is meant. */
  const NOT_FOUND := RID(-1, 0)

  /** A live record: its key, the place of the key in the key order, and its value.  Copies
      of keys that only serve as separators in the tree have no value. */
  datatype Entry = Entry(key: String, rank: real, value: Option<String>)

  type Records = map<RID, Entry>

  function Inserted<T>(s: seq<T>, i: nat, x: T): (r: seq<T>)
    requires i <= |s|
  {
    s[..i] + [x] + s[i..]
  }

  lemma InsertAt<T>(s: seq<T>, i: nat, x: T)
    requires i <= |s|
    ensures |Inserted(s, i, x)| == |s| + 1
    ensures forall j :: 0 <= j < i ==> Inserted(s, i, x)[j] == s[j]
    ensures Inserted(s, i, x)[i] == x
    ensures forall j :: i < j <= |s| ==> Inserted(s, i, x)[j] == s[j - 1]
    ensures forall y :: y in Inserted(s, i, x) <==> y in s || y == x
  {
    assert s == s[..i] + s[i..];
  }

  function Removed<T>(s: seq<T>, i: nat): (r: seq<T>)
    requires i < |s|
  {
    s[..i] + s[i + 1..]
  }

  lemma DeleteAt<T>(s: seq<T>, i: nat)
    requires i < |s|
    ensures |Removed(s, i)| == |s| - 1
    ensures forall j :: 0 <= j < i ==> Removed(s, i)[j] == s[j]
    ensures forall j :: i <= j < |s| - 1 ==> Removed(s, i)[j] == s[j + 1]
    ensures forall y :: y in s ==> y in Removed(s, i) || y == s[i]
    ensures forall y :: y in Removed(s, i) ==> y in s
  {
    assert s == s[..i] + [s[i]] + s[i + 1..];
  }

  predicate Between(n: int, a: int, length: int) { n <= a < length }

  /** The pages from n to the end of a file. */
  ghost function PagesFrom(n: int, length: int): (s: set<int>)
    ensures forall a :: a in s <==> n <= a < length
  {
    set a | n <= a < length && Between(n, a, length)
  }
}
