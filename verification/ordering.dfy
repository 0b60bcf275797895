/**
 * Orderings and the two standard-library sequence operations the source relies on:
 * a sort by key (`sort_by`, `sort`, SQL `ORDER BY`) and `Vec::dedup`.
 *
 * Every ordering in the source is lexicographic over a key: `String` comparison is
 * byte-wise over UTF-8, which for valid UTF-8 is the same as code-point order, so a
 * string's key is the sequence of its code points; a timestamp's key is the one-element
 * sequence holding it; the directories-first order of a listing prefixes the name with
 * 0 for a directory and 1 for a file.
 */
module Ordering {

  /** Lexicographic order on integer sequences (a proper prefix comes first). */
  predicate LexLe(a: seq<int>, b: seq<int>)
  {
    |a| == 0 || (|b| > 0 && (a[0] < b[0] || (a[0] == b[0] && LexLe(a[1..], b[1..]))))
  }

  predicate LexLt(a: seq<int>, b: seq<int>)
  {
    LexLe(a, b) && a != b
  }

  lemma {:induction false} LexLeReflexive(a: seq<int>)
    ensures LexLe(a, a)
  {
    if |a| > 0 {
      LexLeReflexive(a[1..]);
    }
  }

  lemma {:induction false} LexLeTotal(a: seq<int>, b: seq<int>)
    ensures LexLe(a, b) || LexLe(b, a)
  {
    if |a| > 0 && |b| > 0 && a[0] == b[0] {
      LexLeTotal(a[1..], b[1..]);
    }
  }

  lemma {:induction false} LexLeAntisymmetric(a: seq<int>, b: seq<int>)
    requires LexLe(a, b) && LexLe(b, a)
    ensures a == b
  {
    if |a| > 0 && |b| > 0 {
      LexLeAntisymmetric(a[1..], b[1..]);
      assert a == [a[0]] + a[1..];
      assert b == [b[0]] + b[1..];
    }
  }

  lemma {:induction false} LexLeTransitive(a: seq<int>, b: seq<int>, c: seq<int>)
    requires LexLe(a, b) && LexLe(b, c)
    ensures LexLe(a, c)
  {
    if |a| > 0 && |b| > 0 && |c| > 0 && a[0] == b[0] && b[0] == c[0] {
      LexLeTransitive(a[1..], b[1..], c[1..]);
    }
  }

  /** Nothing lies strictly between a key and itself. */
  lemma LexLeSqueeze(a: seq<int>, b: seq<int>, c: seq<int>)
    ensures LexLe(a, b) && LexLe(b, c) && a == c ==> a == b
  {
    if LexLe(a, b) && LexLe(b, c) && a == c {
      LexLeAntisymmetric(a, b);
    }
  }

  /** A prefix byte decides the comparison; equal prefixes defer to the rest. */
  lemma LexLeCons(x: int, a: seq<int>, y: int, b: seq<int>)
    ensures LexLe([x] + a, [y] + b) <==> x < y || (x == y && LexLe(a, b))
  {
    assert ([x] + a)[1..] == a;
    assert ([y] + b)[1..] == b;
  }

  /** The code points of a string: the key of Rust's byte-wise `String` order. */
  function Codes(s: string): (r: seq<int>)
  {
    seq(|s|, i requires 0 <= i < |s| => s[i] as int)
  }

  lemma CodesInjective(a: string, b: string)
    requires Codes(a) == Codes(b)
    ensures a == b
  {
    assert |a| == |Codes(a)| && |b| == |Codes(b)|;
    forall i | 0 <= i < |a|
      ensures a[i] == b[i]
    {
      assert Codes(a)[i] == Codes(b)[i];
    }
  }

  /** Rust's `Ord` on `String`. */
  predicate StrLe(a: string, b: string)
  {
    LexLe(Codes(a), Codes(b))
  }

  ghost predicate SortedBy<T>(s: seq<T>, key: T -> seq<int>)
  {
    forall i, j :: 0 <= i < j < |s| ==> LexLe(key(s[i]), key(s[j]))
  }

  ghost predicate StrictlySortedBy<T>(s: seq<T>, key: T -> seq<int>)
  {
    forall i, j :: 0 <= i < j < |s| ==> LexLt(key(s[i]), key(s[j]))
  }

  /** No two positions of `s` carry the same key. */
  ghost predicate DistinctKeys<T>(s: seq<T>, key: T -> seq<int>)
  {
    forall i, j :: 0 <= i < j < |s| ==> key(s[i]) != key(s[j])
  }

  /** Inserts `x` before the first element whose key is not below `x`'s. */
  function Insert<T>(x: T, s: seq<T>, key: T -> seq<int>): (r: seq<T>)
    ensures |r| == |s| + 1
    ensures multiset(r) == multiset(s) + multiset{x}
  {
    if s == [] then [x]
    else if LexLe(key(x), key(s[0])) then [x] + s
    else
      assert s == [s[0]] + s[1..];
      [s[0]] + Insert(x, s[1..], key)
  }

  /** A sort by key: what `sort_by` and `ORDER BY` produce, up to the order of equal keys. */
  function SortByKey<T>(s: seq<T>, key: T -> seq<int>): (r: seq<T>)
    ensures |r| == |s|
    ensures multiset(r) == multiset(s)
  {
    if s == [] then []
    else
      assert s == [s[0]] + s[1..];
      Insert(s[0], SortByKey(s[1..], key), key)
  }

  lemma {:induction false} InsertSorted<T>(x: T, s: seq<T>, key: T -> seq<int>)
    requires SortedBy(s, key)
    ensures SortedBy(Insert(x, s, key), key)
  {
    var r := Insert(x, s, key);
    if s == [] {
    } else if LexLe(key(x), key(s[0])) {
      forall i, j | 0 <= i < j < |r|
        ensures LexLe(key(r[i]), key(r[j]))
      {
        if i == 0 && j > 1 {
          LexLeTransitive(key(x), key(s[0]), key(s[j - 1]));
        }
      }
    } else {
      var tail := Insert(x, s[1..], key);
      assert SortedBy(s[1..], key) by {
        forall i, j | 0 <= i < j < |s[1..]|
          ensures LexLe(key(s[1..][i]), key(s[1..][j]))
        {
          assert s[1..][i] == s[i + 1] && s[1..][j] == s[j + 1];
        }
      }
      InsertSorted(x, s[1..], key);
      LexLeTotal(key(x), key(s[0]));
      forall i, j | 0 <= i < j < |r|
        ensures LexLe(key(r[i]), key(r[j]))
      {
        if i == 0 {
          var y := r[j];
          assert y == tail[j - 1];
          assert y in multiset(tail);
          if y != x {
            assert y in multiset(s[1..]);
            var k :| 0 <= k < |s[1..]| && s[1..][k] == y;
            assert s[k + 1] == y;
          }
        } else {
          assert r[i] == tail[i - 1] && r[j] == tail[j - 1];
        }
      }
    }
  }

  lemma {:induction false} SortByKeySorted<T>(s: seq<T>, key: T -> seq<int>)
    ensures SortedBy(SortByKey(s, key), key)
  {
    if s != [] {
      SortByKeySorted(s[1..], key);
      InsertSorted(s[0], SortByKey(s[1..], key), key);
    }
  }

  lemma {:induction false} InsertStrict<T>(x: T, s: seq<T>, key: T -> seq<int>)
    requires StrictlySortedBy(s, key)
    requires forall y :: y in s ==> key(y) != key(x)
    ensures StrictlySortedBy(Insert(x, s, key), key)
  {
    var r := Insert(x, s, key);
    if s == [] {
    } else if LexLe(key(x), key(s[0])) {
      forall i, j | 0 <= i < j < |r|
        ensures LexLt(key(r[i]), key(r[j]))
      {
        if i == 0 {
          if j > 1 {
            LexLeTransitive(key(x), key(s[0]), key(s[j - 1]));
          }
          assert r[j] == s[j - 1] && r[j] in s;
        }
      }
    } else {
      var tail := Insert(x, s[1..], key);
      assert StrictlySortedBy(s[1..], key) by {
        forall i, j | 0 <= i < j < |s[1..]|
          ensures LexLt(key(s[1..][i]), key(s[1..][j]))
        {
          assert s[1..][i] == s[i + 1] && s[1..][j] == s[j + 1];
        }
      }
      forall y | y in s[1..]
        ensures key(y) != key(x)
      {
        assert y in s;
      }
      InsertStrict(x, s[1..], key);
      LexLeTotal(key(x), key(s[0]));
      assert s[0] in s;
      forall i, j | 0 <= i < j < |r|
        ensures LexLt(key(r[i]), key(r[j]))
      {
        if i == 0 {
          var y := r[j];
          assert y == tail[j - 1];
          assert y in multiset(tail);
          if y != x {
            assert y in multiset(s[1..]);
            var k :| 0 <= k < |s[1..]| && s[1..][k] == y;
            assert s[k + 1] == y;
          }
        } else {
          assert r[i] == tail[i - 1] && r[j] == tail[j - 1];
        }
      }
    }
  }

  /** Sorting a sequence whose keys are pairwise distinct gives a strictly ascending sequence. */
  lemma {:induction false} SortByKeyStrict<T>(s: seq<T>, key: T -> seq<int>)
    requires DistinctKeys(s, key)
    ensures StrictlySortedBy(SortByKey(s, key), key)
  {
    if s != [] {
      assert DistinctKeys(s[1..], key) by {
        forall i, j | 0 <= i < j < |s[1..]|
          ensures key(s[1..][i]) != key(s[1..][j])
        {
          assert s[1..][i] == s[i + 1] && s[1..][j] == s[j + 1];
        }
      }
      SortByKeyStrict(s[1..], key);
      var t := SortByKey(s[1..], key);
      forall y | y in t
        ensures key(y) != key(s[0])
      {
        assert y in multiset(t);
        assert y in multiset(s[1..]);
        var k :| 0 <= k < |s[1..]| && s[1..][k] == y;
        assert s[k + 1] == y;
      }
      InsertStrict(s[0], t, key);
    }
  }

  /** Two strictly ascending sequences with the same elements are the same sequence. */
  lemma {:induction false} StrictlySortedUnique<T>(a: seq<T>, b: seq<T>, key: T -> seq<int>)
    requires StrictlySortedBy(a, key) && StrictlySortedBy(b, key)
    requires forall x :: x in a <==> x in b
    ensures a == b
    decreases |a|
  {
    if a == [] {
    } else {
      assert a[0] in a;
      assert b != [];
      assert b[0] in b;
      var j :| 0 <= j < |b| && b[j] == a[0];
      var i :| 0 <= i < |a| && a[i] == b[0];
      if i > 0 && j > 0 {
        assert LexLt(key(a[0]), key(a[i]));
        assert LexLt(key(b[0]), key(b[j]));
        LexLeAntisymmetric(key(a[0]), key(b[0]));
        assert false;
      }
      assert a[0] == b[0];
      assert StrictlySortedBy(a[1..], key) by {
        forall p, q | 0 <= p < q < |a[1..]|
          ensures LexLt(key(a[1..][p]), key(a[1..][q]))
        {
          assert a[1..][p] == a[p + 1] && a[1..][q] == a[q + 1];
        }
      }
      assert StrictlySortedBy(b[1..], key) by {
        forall p, q | 0 <= p < q < |b[1..]|
          ensures LexLt(key(b[1..][p]), key(b[1..][q]))
        {
          assert b[1..][p] == b[p + 1] && b[1..][q] == b[q + 1];
        }
      }
      forall x
        ensures x in a[1..] <==> x in b[1..]
      {
        if x in a[1..] {
          var p :| 0 <= p < |a[1..]| && a[1..][p] == x;
          assert a[p + 1] == x && x in a;
          assert LexLt(key(a[0]), key(a[p + 1]));
          var q :| 0 <= q < |b| && b[q] == x;
          assert q != 0;
          assert b[1..][q - 1] == x;
        }
        if x in b[1..] {
          var p :| 0 <= p < |b[1..]| && b[1..][p] == x;
          assert b[p + 1] == x && x in b;
          assert LexLt(key(b[0]), key(b[p + 1]));
          var q :| 0 <= q < |a| && a[q] == x;
          assert q != 0;
          assert a[1..][q - 1] == x;
        }
      }
      StrictlySortedUnique(a[1..], b[1..], key);
      assert a == [a[0]] + a[1..];
      assert b == [b[0]] + b[1..];
    }
  }

  /** `Vec::dedup`: drops each element equal to its predecessor. */
  function Dedup<T(==,!new)>(s: seq<T>): (r: seq<T>)
    ensures forall x :: x in r <==> x in s
    ensures |s| > 0 ==> |r| > 0 && r[0] == s[0]
  {
    if |s| <= 1 then s
    else if s[0] == s[1] then
      assert forall x :: x in s <==> x in s[1..] by {
        assert s == [s[0]] + s[1..];
        assert s[1] in s[1..];
      }
      Dedup(s[1..])
    else
      assert s == [s[0]] + s[1..];
      [s[0]] + Dedup(s[1..])
  }

  /**
   * Deduplicating a sorted sequence over a key that tells elements apart leaves it
   * strictly ascending.
   */
  lemma {:induction false} DedupSortedStrict<T(!new)>(s: seq<T>, key: T -> seq<int>)
    requires SortedBy(s, key)
    requires forall x, y :: x in s && y in s && key(x) == key(y) ==> x == y
    ensures StrictlySortedBy(Dedup(s), key)
  {
    if |s| > 1 {
      assert SortedBy(s[1..], key) by {
        forall i, j | 0 <= i < j < |s[1..]|
          ensures LexLe(key(s[1..][i]), key(s[1..][j]))
        {
          assert s[1..][i] == s[i + 1] && s[1..][j] == s[j + 1];
        }
      }
      forall x, y | x in s[1..] && y in s[1..] && key(x) == key(y)
        ensures x == y
      {
        assert x in s && y in s;
      }
      DedupSortedStrict(s[1..], key);
      if s[0] != s[1] {
        var r := Dedup(s);
        var tail := Dedup(s[1..]);
        assert r == [s[0]] + tail;
        forall i, j | 0 <= i < j < |r|
          ensures LexLt(key(r[i]), key(r[j]))
        {
          if i == 0 {
            var y := r[j];
            assert y == tail[j - 1] && y in tail;
            assert y in s[1..];
            var k :| 0 <= k < |s[1..]| && s[1..][k] == y;
            assert s[k + 1] == y;
            assert LexLe(key(s[0]), key(y));
            assert LexLe(key(s[1]), key(y)) by {
              if k == 0 {
                LexLeReflexive(key(s[1]));
              }
            }
            assert LexLe(key(s[0]), key(s[1]));
            assert key(s[0]) != key(s[1]) by {
              assert s[0] in s && s[1] in s;
            }
            LexLeSqueeze(key(s[0]), key(s[1]), key(y));
          } else {
            assert r[i] == tail[i - 1] && r[j] == tail[j - 1];
          }
        }
      }
    }
  }
}
