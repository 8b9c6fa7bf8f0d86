/**
 * `Array.prototype.sort` with a comparator `(a, b) => key(b) - key(a)`: a stable sort into
 * non-increasing order of a real-valued key (ECMAScript requires `sort` to be stable).
 * It is modelled by a functional insertion sort; stability shows up as: when the input is
 * strictly increasing in some `rank`, equal keys stay in increasing `rank` order.
 */
module Sorting {

  /** `x` comes before `y`: a larger key, or an equal key and a smaller rank. */
  predicate Before<T>(x: T, y: T, key: T -> real, rank: T -> int)
  {
    key(x) > key(y) || (key(x) == key(y) && rank(x) < rank(y))
  }

  predicate NonIncreasing<T>(s: seq<T>, key: T -> real)
  {
    forall i, j :: 0 <= i < j < |s| ==> key(s[i]) >= key(s[j])
  }

  predicate RankIncreasing<T>(s: seq<T>, rank: T -> int)
  {
    forall i, j :: 0 <= i < j < |s| ==> rank(s[i]) < rank(s[j])
  }

  /** Sorted by decreasing key, with ties in increasing rank. */
  predicate LexOrdered<T>(s: seq<T>, key: T -> real, rank: T -> int)
  {
    forall i, j :: 0 <= i < j < |s| ==> Before(s[i], s[j], key, rank)
  }

  /** Puts `x` in front of the first element whose key is not larger than its own. */
  function Insert<T>(x: T, s: seq<T>, key: T -> real): seq<T>
  {
    if s == [] then [x]
    else if key(x) >= key(s[0]) then [x] + s
    else [s[0]] + Insert(x, s[1..], key)
  }

  function SortBy<T>(s: seq<T>, key: T -> real): seq<T>
  {
    if s == [] then [] else Insert(s[0], SortBy(s[1..], key), key)
  }

  lemma {:induction false} InsertPermutes<T>(x: T, s: seq<T>, key: T -> real)
    ensures multiset(Insert(x, s, key)) == multiset(s) + multiset{x}
  {
    if s != [] && key(x) < key(s[0]) {
      InsertPermutes(x, s[1..], key);
      assert s == [s[0]] + s[1..];
    }
  }

  /** The sorted list is a permutation of the input. */
  lemma {:induction false} SortByPermutes<T>(s: seq<T>, key: T -> real)
    ensures multiset(SortBy(s, key)) == multiset(s)
    ensures |SortBy(s, key)| == |s|
  {
    if s != [] {
      SortByPermutes(s[1..], key);
      InsertPermutes(s[0], SortBy(s[1..], key), key);
      assert s == [s[0]] + s[1..];
    }
  }

  lemma {:induction false} InsertNonIncreasing<T>(x: T, s: seq<T>, key: T -> real)
    requires NonIncreasing(s, key)
    ensures NonIncreasing(Insert(x, s, key), key)
  {
    if s != [] && key(x) < key(s[0]) {
      InsertNonIncreasing(x, s[1..], key);
      InsertPermutes(x, s[1..], key);
      var r := Insert(x, s[1..], key);
      forall k | 0 <= k < |r| ensures key(s[0]) >= key(r[k]) {
        assert r[k] in multiset(r);
        if r[k] != x {
          assert r[k] in multiset(s[1..]);
          var m :| 0 <= m < |s[1..]| && s[1..][m] == r[k];
          assert s[m + 1] == r[k];
        }
      }
    }
  }

  /** The sorted list is in non-increasing key order. */
  lemma {:induction false} SortByNonIncreasing<T>(s: seq<T>, key: T -> real)
    ensures NonIncreasing(SortBy(s, key), key)
  {
    if s != [] {
      SortByNonIncreasing(s[1..], key);
      InsertNonIncreasing(s[0], SortBy(s[1..], key), key);
    }
  }

  lemma {:induction false} InsertLexOrdered<T>(x: T, s: seq<T>, key: T -> real, rank: T -> int)
    requires LexOrdered(s, key, rank)
    requires forall k :: 0 <= k < |s| ==> rank(x) < rank(s[k])
    ensures LexOrdered(Insert(x, s, key), key, rank)
  {
    if s != [] && key(x) < key(s[0]) {
      InsertLexOrdered(x, s[1..], key, rank);
      InsertPermutes(x, s[1..], key);
      var r := Insert(x, s[1..], key);
      forall k | 0 <= k < |r| ensures Before(s[0], r[k], key, rank) {
        assert r[k] in multiset(r);
        if r[k] != x {
          assert r[k] in multiset(s[1..]);
          var m :| 0 <= m < |s[1..]| && s[1..][m] == r[k];
          assert s[m + 1] == r[k];
        }
      }
    }
  }

  /**
   * Stability: sorting a list whose ranks increase yields decreasing keys, with equal keys
   * kept in their original (increasing-rank) order.
   */
  lemma {:induction false} SortByLexOrdered<T>(s: seq<T>, key: T -> real, rank: T -> int)
    requires RankIncreasing(s, rank)
    ensures LexOrdered(SortBy(s, key), key, rank)
  {
    if s != [] {
      var t := SortBy(s[1..], key);
      SortByLexOrdered(s[1..], key, rank);
      SortByPermutes(s[1..], key);
      forall k | 0 <= k < |t| ensures rank(s[0]) < rank(t[k]) {
        assert t[k] in multiset(s[1..]);
        var m :| 0 <= m < |s[1..]| && s[1..][m] == t[k];
        assert s[m + 1] == t[k];
      }
      InsertLexOrdered(s[0], t, key, rank);
    }
  }

  /** Sorting invents no elements: each output element is an input element. */
  lemma SortByFrom<T>(s: seq<T>, key: T -> real)
    ensures |SortBy(s, key)| == |s|
    ensures forall k :: 0 <= k < |s| ==> exists m :: 0 <= m < |s| && SortBy(s, key)[k] == s[m]
  {
    var r := SortBy(s, key);
    SortByPermutes(s, key);
    forall k | 0 <= k < |s| ensures exists m :: 0 <= m < |s| && r[k] == s[m] {
      assert r[k] in multiset(s);
    }
  }

  /** A property every input element has, every output element has. */
  lemma SortByAll<T>(s: seq<T>, key: T -> real, p: T -> bool)
    requires forall m :: 0 <= m < |s| ==> p(s[m])
    ensures forall k :: 0 <= k < |SortBy(s, key)| ==> p(SortBy(s, key)[k])
  {
    var r := SortBy(s, key);
    SortByFrom(s, key);
    forall k | 0 <= k < |r| ensures p(r[k]) {
      var m :| 0 <= m < |s| && r[k] == s[m];
    }
  }

  /** Sorting drops no elements: each input element is an output element. */
  lemma SortByKeeps<T>(s: seq<T>, key: T -> real)
    ensures |SortBy(s, key)| == |s|
    ensures forall m :: 0 <= m < |s| ==> exists k :: 0 <= k < |s| && SortBy(s, key)[k] == s[m]
  {
    var r := SortBy(s, key);
    SortByPermutes(s, key);
    forall m | 0 <= m < |s| ensures exists k :: 0 <= k < |s| && r[k] == s[m] {
      assert s[m] in multiset(r);
    }
  }

  /** Sorting a list of distinct ranks keeps the ranks distinct. */
  lemma SortByRanksDistinct<T>(s: seq<T>, key: T -> real, rank: T -> int)
    requires RankIncreasing(s, rank)
    ensures forall i, j :: 0 <= i < j < |SortBy(s, key)| ==> rank(SortBy(s, key)[i]) != rank(SortBy(s, key)[j])
  {
    var r := SortBy(s, key);
    SortByFrom(s, key);
    SortByLexOrdered(s, key, rank);
    forall i, j | 0 <= i < j < |r| ensures rank(r[i]) != rank(r[j]) {
      // Equal ranks would make both the same input element, which cannot sort before itself.
      var mi :| 0 <= mi < |s| && r[i] == s[mi];
      var mj :| 0 <= mj < |s| && r[j] == s[mj];
      assert Before(r[i], r[j], key, rank);
    }
  }
}
