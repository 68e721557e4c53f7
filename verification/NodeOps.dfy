/** The loops of src/b_tree.c that move entries of `row_ptr` and `child` about.  Both are
    buffers of fixed size of which a prefix is in use. */
module NodeOps {
  import opened Common
  import opened BTreeModel

  /** Make room at i among the first n entries and put x there. */
  method ShiftInsert<T>(s: seq<T>, n: nat, i: nat, x: T) returns (t: seq<T>)
    requires i <= n < |s|
    ensures |t| == |s| && t[..n + 1] == Inserted(s[..n], i, x)
  {
    t := s;
    var j := n;
    while j > i
      invariant i <= j <= n && |t| == |s|
      invariant forall k :: 0 <= k <= j ==> t[k] == s[k]
      invariant forall k :: j < k <= n ==> t[k] == s[k - 1]
    {
      t := t[j := t[j - 1]];
      j := j - 1;
    }
    t := t[i := x];
  }

  /** Close the gap that entry i of the first n leaves. */
  method ShiftDelete<T>(s: seq<T>, n: nat, i: nat) returns (t: seq<T>)
    requires i < n <= |s|
    ensures |t| == |s| && t[..n - 1] == Removed(s[..n], i)
  {
    t := s;
    var j := i;
    while j < n - 1
      invariant i <= j <= n - 1 && |t| == |s|
      invariant forall k :: 0 <= k < i ==> t[k] == s[k]
      invariant forall k :: i <= k < j ==> t[k] == s[k + 1]
      invariant forall k :: j <= k < n ==> t[k] == s[k]
    {
      t := t[j := t[j + 1]];
      j := j + 1;
    }
  }

  /** Copy the first m entries of src behind the first n of s. */
  method CopyBehind<T>(s: seq<T>, n: nat, src: seq<T>, m: nat) returns (t: seq<T>)
    requires n + m <= |s| && m <= |src|
    ensures |t| == |s| && t[..n + m] == s[..n] + src[..m]
  {
    t := s;
    for j := 0 to m
      invariant |t| == |s| && t[..n] == s[..n]
      invariant forall k :: 0 <= k < j ==> t[n + k] == src[k]
    {
      t := t[n + j := src[j]];
    }
  }

  /** Inserted x at position i of a full row and deal the 2*DEGREE keys out to two rows. */
  method SplitRow(row: seq<RID>, buffer: seq<RID>, i: nat, x: RID) returns (left: seq<RID>, right: seq<RID>)
    requires |row| == |buffer| == 2 * DEGREE - 1 && i <= |row|
    ensures |left| == |right| == 2 * DEGREE - 1
    ensures left[..DEGREE] == Inserted(row, i, x)[..DEGREE] && right[..DEGREE] == Inserted(row, i, x)[DEGREE..]
  {
    InsertAt(row, i, x);
    if i < DEGREE {
      right := UpperHalf(row, buffer);
      left := ShiftInsert(row, DEGREE - 1, i, x);
      InsertAt(row[..DEGREE - 1], i, x);
    } else {
      left := row;
      right := DealUpper(row, buffer, i, x);
    }
    hide Inserted;
  }

  method UpperHalf(row: seq<RID>, buffer: seq<RID>) returns (right: seq<RID>)
    requires |row| == |buffer| == 2 * DEGREE - 1
    ensures |right| == |buffer| && forall k :: 0 <= k < DEGREE ==> right[k] == row[DEGREE - 1 + k]
  {
    right := buffer;
    for j := DEGREE - 1 to 2 * DEGREE - 1
      invariant |right| == |buffer| && forall k :: 0 <= k < j - DEGREE + 1 ==> right[k] == row[DEGREE - 1 + k]
    {
      right := right[j - DEGREE + 1 := row[j]];
    }
  }

  method DealUpper(row: seq<RID>, buffer: seq<RID>, i: nat, x: RID) returns (right: seq<RID>)
    requires |row| == |buffer| == 2 * DEGREE - 1 && DEGREE <= i <= |row|
    ensures |right| == |buffer|
    ensures forall k :: 0 <= k < DEGREE ==>
      right[k] == if DEGREE + k < i then row[DEGREE + k] else if DEGREE + k == i then x else row[DEGREE + k - 1]
  {
    right := buffer;
    var j, count, tag := DEGREE, 0, false;
    while count < DEGREE
      invariant count <= DEGREE && |right| == |buffer|
      invariant j == DEGREE + count - if tag then 1 else 0
      invariant tag <==> DEGREE + count > i
      invariant forall k :: 0 <= k < count ==>
        right[k] == if DEGREE + k < i then row[DEGREE + k] else if DEGREE + k == i then x else row[DEGREE + k - 1]
    {
      if i != j || tag {
        right := right[count := row[j]];
        j := j + 1;
      } else {
        right := right[count := x];
        tag := true;
      }
      count := count + 1;
    }
  }

  /** The child array of a full node with y put in at position i. */
  method SpreadKids(child: seq<int>, i: nat, y: int) returns (ch: seq<int>)
    requires |child| == 2 * DEGREE && i <= 2 * DEGREE
    ensures ch == Inserted(child, i, y)
  {
    hide Inserted;
    InsertAt(child, i, y);
    ch := seq(2 * DEGREE + 1, _ => -1);
    var j, count, tag := 0, 0, false;
    while count < 2 * DEGREE + 1
      invariant count <= 2 * DEGREE + 1 && |ch| == 2 * DEGREE + 1
      invariant j == count - if tag then 1 else 0
      invariant tag <==> count > i
      invariant forall k :: 0 <= k < count ==> ch[k] == Inserted(child, i, y)[k]
    {
      if i != j || tag {
        ch := ch[count := child[j]];
        j := j + 1;
      } else {
        ch := ch[count := y];
        tag := true;
      }
      count := count + 1;
    }
  }

  /** The children of a split inner node: DEGREE stay, DEGREE + 1 go to the new page. */
  method DealKids(child: seq<int>, buffer: seq<int>, i: nat, y: int) returns (low: seq<int>, high: seq<int>)
    requires |child| == |buffer| == 2 * DEGREE && i <= 2 * DEGREE
    ensures |low| == |high| == 2 * DEGREE && |Inserted(child, i, y)| == 2 * DEGREE + 1
    ensures low[..DEGREE] == Inserted(child, i, y)[..DEGREE] && high[..DEGREE + 1] == Inserted(child, i, y)[DEGREE..]
  {
    hide Inserted;
    var ch := SpreadKids(child, i, y);
    InsertAt(child, i, y);
    low := CopyBehind(child, 0, ch, DEGREE);
    high := CopyBehind(buffer, 0, ch[DEGREE..], DEGREE + 1);
  }
}
