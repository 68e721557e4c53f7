/** The order of keys: lexicographic on characters, a proper prefix first.  `Rank` embeds it
    into the real numbers, so that the tree can be reasoned about with plain comparisons. */
module KeyOrder {
  import opened Common

  predicate Less(a: String, b: String) {
    if b == [] then false
    else if a == [] then true
    else a[0] < b[0] || (a[0] == b[0] && Less(a[1..], b[1..]))
  }

  /** The first k characters agree, and then the first string ends or has the smaller one. */
  predicate LessAt(a: String, b: String, k: int) {
    0 <= k <= |a| && k < |b| && a[..k] == b[..k] && (k == |a| || a[k] < b[k])
  }

  /** Less is decided at the first position where the strings differ. */
  lemma {:induction false} LessFirst(a: String, b: String)
    ensures Less(a, b) <==> exists k :: LessAt(a, b, k)
  {
    if a != [] && b != [] && a[0] == b[0] {
      LessFirst(a[1..], b[1..]);
      assert a == [a[0]] + a[1..] && b == [b[0]] + b[1..];
      if k :| LessAt(a[1..], b[1..], k) {
        assert a[..k + 1] == [a[0]] + a[1..][..k] && b[..k + 1] == [b[0]] + b[1..][..k];
        assert LessAt(a, b, k + 1);
      }
      if k :| LessAt(a, b, k) {
        assert k > 0 ==> a[1..][..k - 1] == a[..k][1..] && b[1..][..k - 1] == b[..k][1..];
        assert LessAt(a[1..], b[1..], k - 1);
      }
    } else if a != [] && b != [] {
      forall k | 0 < k <= |a| && k < |b| ensures a[..k] != b[..k] {
        assert a[..k][0] == a[0] && b[..k][0] == b[0];
      }
      assert a[0] < b[0] ==> LessAt(a, b, 0);
    } else if b != [] {
      assert LessAt(a, b, 0);
    }
  }

  ghost function Rank(s: String): (q: real)
    ensures 0.0 <= q < 1.0
  {
    if s == [] then 0.0 else
    var c: int := s[0];
    ((c + 129) as real + Rank(s[1..])) / 257.0
  }

  lemma Digits(c: int, x: real, d: int, y: real)
    requires 0.0 <= x < 1.0 && 0.0 <= y < 1.0
    ensures c as real + x < d as real + y <==> c < d || (c == d && x < y)
    ensures c as real + x == d as real + y <==> c == d && x == y
  {
    if c < d {
      assert c + 1 <= d;
      assert c as real + 1.0 <= d as real;
    } else if d < c {
      assert d + 1 <= c;
      assert d as real + 1.0 <= c as real;
    }
  }

  lemma {:induction false} RankLess(a: String, b: String)
    ensures Less(a, b) <==> Rank(a) < Rank(b)
    ensures Rank(a) == Rank(b) <==> a == b
  {
    if a != [] && b != [] {
      RankLess(a[1..], b[1..]);
      var c: int, d: int := a[0], b[0];
      Digits(c + 129, Rank(a[1..]), d + 129, Rank(b[1..]));
      assert a == b <==> a[0] == b[0] && a[1..] == b[1..] by {
        assert a == [a[0]] + a[1..] && b == [b[0]] + b[1..];
      }
    }
  }

  /** The three-way result of comparing two keys. */
  function Compare(a: String, b: String): int {
    if Less(a, b) then -1 else if a == b then 0 else 1
  }

  /** Less is a strict total order, and Compare is its sign. */
  lemma CompareRank(a: String, b: String)
    ensures Compare(a, b) == if Rank(a) > Rank(b) then 1 else if Rank(a) == Rank(b) then 0 else -1
    ensures Compare(a, b) == 0 <==> a == b
  {
    RankLess(a, b);
  }
}
