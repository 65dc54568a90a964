/**
 * The sort engine behind `sortBy` and `setColumnOrder`. Both hand a
 * three-way comparator to Array.prototype.sort, which ECMA-262 requires to
 * be stable (2019 edition, section 22.1.3.27, and the corresponding section
 * of later editions). The comparators compare
 * elements through a key: a number, or an upper-cased string, and `<` on
 * keys is JavaScript's `<` on numbers and on strings.
 *
 * SortSpec is a stable insertion sort written as functions; StableSort is
 * the same algorithm with loops. The lemmas show that SortSpec's result is a
 * permutation, is ordered by the comparator, keeps every group of equal keys
 * in input order, and is the only sequence with those properties, so it is
 * what any stable sort returns.
 */
module Ordering {

  datatype Key = IntKey(n: int) | StrKey(s: string)

  /** JavaScript `<` on two strings: lexicographic by character code. */
  predicate StrLess(a: string, b: string)
    decreases |a|
  {
    if a == [] then b != []
    else if b == [] then false
    else if a[0] != b[0] then a[0] < b[0]
    else StrLess(a[1..], b[1..])
  }

  /**
   * `<` on keys. A column's type fixes the kind of every key drawn from it,
   * so a comparison between the two kinds never happens; ordering numbers
   * first only makes the relation total.
   */
  predicate Less(a: Key, b: Key)
  {
    match (a, b)
    case (IntKey(x), IntKey(y)) => x < y
    case (StrKey(x), StrKey(y)) => StrLess(x, y)
    case (IntKey(_), StrKey(_)) => true
    case (StrKey(_), IntKey(_)) => false
  }

  predicate LessEq(a: Key, b: Key)
  {
    Less(a, b) || a == b
  }

  lemma {:induction false} StrLessIrreflexive(a: string)
    ensures !StrLess(a, a)
    decreases |a|
  {
    if a != [] {
      StrLessIrreflexive(a[1..]);
    }
  }

  lemma {:induction false} StrLessTransitive(a: string, b: string, c: string)
    requires StrLess(a, b) && StrLess(b, c)
    ensures StrLess(a, c)
    decreases |a|
  {
    if a != [] && a[0] == b[0] && b[0] == c[0] {
      StrLessTransitive(a[1..], b[1..], c[1..]);
    }
  }

  lemma {:induction false} StrLessTotal(a: string, b: string)
    ensures a == b || StrLess(a, b) || StrLess(b, a)
    decreases |a|
  {
    if a != [] && b != [] && a[0] == b[0] {
      StrLessTotal(a[1..], b[1..]);
      assert a == [a[0]] + a[1..];
      assert b == [b[0]] + b[1..];
    }
  }

  lemma LessIrreflexive(a: Key)
    ensures !Less(a, a)
  {
    if a.StrKey? {
      StrLessIrreflexive(a.s);
    }
  }

  lemma LessTransitive(a: Key, b: Key, c: Key)
    requires Less(a, b) && Less(b, c)
    ensures Less(a, c)
  {
    if a.StrKey? && b.StrKey? && c.StrKey? {
      StrLessTransitive(a.s, b.s, c.s);
    }
  }

  lemma LessTotal(a: Key, b: Key)
    ensures a == b || Less(a, b) || Less(b, a)
  {
    if a.StrKey? && b.StrKey? {
      StrLessTotal(a.s, b.s);
    }
  }

  lemma LessAsymmetric(a: Key, b: Key)
    ensures !(Less(a, b) && Less(b, a))
  {
    if Less(a, b) && Less(b, a) {
      LessTransitive(a, b, a);
      LessIrreflexive(a);
    }
  }

  /**
   * The comparator of `sortBy`: with sign = 1 when ascending and -1
   * otherwise, it answers -sign when a < b, sign when a > b and 0 when
   * neither holds. `setColumnOrder`'s `oa - ob` has the sign of the
   * ascending case (RankComparator in TableSpec).
   */
  function Compare(a: Key, b: Key, ascending: bool): (c: int)
    ensures c == 0 <==> a == b
    ensures c < 0 <==> (if ascending then Less(a, b) else Less(b, a))
    ensures c > 0 <==> (if ascending then Less(b, a) else Less(a, b))
  {
    LessIrreflexive(a);
    LessTotal(a, b);
    LessAsymmetric(a, b);
    var sign := if ascending then 1 else -1;
    if Less(a, b) then -sign
    else if Less(b, a) then sign
    else 0
  }

  lemma CompareAntisymmetric(a: Key, b: Key, ascending: bool)
    ensures Compare(a, b, ascending) < 0 <==> Compare(b, a, ascending) > 0
    ensures Compare(a, b, ascending) == 0 <==> Compare(b, a, ascending) == 0
  {
  }

  /** "Not after" is transitive: the comparator is consistent. */
  lemma CompareTransitive(a: Key, b: Key, c: Key, ascending: bool)
    requires Compare(a, b, ascending) <= 0 && Compare(b, c, ascending) <= 0
    ensures Compare(a, c, ascending) <= 0
  {
    LessTotal(a, b);
    LessTotal(b, c);
    LessTotal(a, c);
    LessAsymmetric(a, c);
    if Less(a, b) && Less(b, c) {
      LessTransitive(a, b, c);
    }
    if Less(b, a) && Less(c, b) {
      LessTransitive(c, b, a);
    }
  }

  /** x goes strictly before y when the comparator says so. */
  predicate Before<T>(key: T -> Key, ascending: bool, x: T, y: T)
  {
    Compare(key(x), key(y), ascending) < 0
  }

  /** The comparator never puts a later element strictly before an earlier one. */
  ghost predicate Sorted<T>(s: seq<T>, key: T -> Key, ascending: bool)
  {
    forall i, j :: 0 <= i < j < |s| ==> Compare(key(s[i]), key(s[j]), ascending) <= 0
  }

  /** The elements of s whose key is k, in the order s has them. */
  function Ties<T>(s: seq<T>, key: T -> Key, k: Key): (t: seq<T>)
    ensures forall i :: 0 <= i < |t| ==> key(t[i]) == k && t[i] in s
  {
    if s == [] then []
    else Ties(s[..|s| - 1], key, k) + (if key(s[|s| - 1]) == k then [s[|s| - 1]] else [])
  }

  /** Insert x after every element it does not go strictly before. */
  function Insert<T>(r: seq<T>, x: T, key: T -> Key, ascending: bool): (out: seq<T>)
    ensures |out| == |r| + 1
  {
    if r == [] then [x]
    else if Before(key, ascending, x, r[|r| - 1]) then Insert(r[..|r| - 1], x, key, ascending) + [r[|r| - 1]]
    else r + [x]
  }

  /** Stable insertion sort: the elements of s inserted one by one, left to right. */
  function SortSpec<T>(s: seq<T>, key: T -> Key, ascending: bool): (out: seq<T>)
    ensures |out| == |s|
  {
    if s == [] then []
    else Insert(SortSpec(s[..|s| - 1], key, ascending), s[|s| - 1], key, ascending)
  }

  lemma TiesSnoc<T>(a: seq<T>, y: T, key: T -> Key, k: Key)
    ensures Ties(a + [y], key, k) == Ties(a, key, k) + (if key(y) == k then [y] else [])
  {
    assert (a + [y])[..|a|] == a;
  }

  lemma {:induction false} InsertTies<T>(r: seq<T>, x: T, key: T -> Key, ascending: bool, k: Key)
    ensures Ties(Insert(r, x, key, ascending), key, k) == Ties(r, key, k) + (if key(x) == k then [x] else [])
    decreases |r|
  {
    if r == [] {
      TiesSnoc([], x, key, k);
      assert [] + [x] == [x];
    } else {
      var init, last := r[..|r| - 1], r[|r| - 1];
      assert r == init + [last];
      TiesSnoc(init, last, key, k);
      if Before(key, ascending, x, last) {
        InsertTies(init, x, key, ascending, k);
        TiesSnoc(Insert(init, x, key, ascending), last, key, k);
        assert key(x) != key(last);
      } else {
        TiesSnoc(r, x, key, k);
      }
    }
  }

  lemma {:induction false} InsertPermutation<T>(r: seq<T>, x: T, key: T -> Key, ascending: bool)
    ensures multiset(Insert(r, x, key, ascending)) == multiset(r) + multiset{x}
    decreases |r|
  {
    if r != [] {
      var init, last := r[..|r| - 1], r[|r| - 1];
      assert r == init + [last];
      if Before(key, ascending, x, last) {
        InsertPermutation(init, x, key, ascending);
      }
    }
  }

  /** Every element of s may stand before y. */
  ghost predicate UpTo<T>(s: seq<T>, y: T, key: T -> Key, ascending: bool)
  {
    forall i :: 0 <= i < |s| ==> Compare(key(s[i]), key(y), ascending) <= 0
  }

  lemma {:induction false} InsertUpTo<T>(r: seq<T>, x: T, y: T, key: T -> Key, ascending: bool)
    requires UpTo(r, y, key, ascending)
    requires Compare(key(x), key(y), ascending) <= 0
    ensures UpTo(Insert(r, x, key, ascending), y, key, ascending)
    decreases |r|
  {
    if r != [] && Before(key, ascending, x, r[|r| - 1]) {
      InsertUpTo(r[..|r| - 1], x, y, key, ascending);
    }
  }

  lemma SortedSnoc<T>(a: seq<T>, y: T, key: T -> Key, ascending: bool)
    requires Sorted(a, key, ascending) && UpTo(a, y, key, ascending)
    ensures Sorted(a + [y], key, ascending)
  {
  }

  lemma {:induction false} InsertSorted<T>(r: seq<T>, x: T, key: T -> Key, ascending: bool)
    requires Sorted(r, key, ascending)
    ensures Sorted(Insert(r, x, key, ascending), key, ascending)
    decreases |r|
  {
    if r != [] {
      var init, last := r[..|r| - 1], r[|r| - 1];
      if Before(key, ascending, x, last) {
        InsertSorted(init, x, key, ascending);
        CompareAntisymmetric(key(x), key(last), ascending);
        InsertUpTo(init, x, last, key, ascending);
        SortedSnoc(Insert(init, x, key, ascending), last, key, ascending);
      } else {
        CompareAntisymmetric(key(x), key(last), ascending);
        forall i | 0 <= i < |r|
          ensures Compare(key(r[i]), key(x), ascending) <= 0
        {
          if i < |r| - 1 {
            CompareTransitive(key(r[i]), key(last), key(x), ascending);
          }
        }
        SortedSnoc(r, x, key, ascending);
      }
    }
  }

  /** SortSpec returns a permutation of its input. */
  lemma {:induction false} SortSpecPermutation<T>(s: seq<T>, key: T -> Key, ascending: bool)
    ensures multiset(SortSpec(s, key, ascending)) == multiset(s)
    ensures |SortSpec(s, key, ascending)| == |s|
    decreases |s|
  {
    if s != [] {
      var init := s[..|s| - 1];
      assert s == init + [s[|s| - 1]];
      SortSpecPermutation(init, key, ascending);
      InsertPermutation(SortSpec(init, key, ascending), s[|s| - 1], key, ascending);
    }
    assert |multiset(SortSpec(s, key, ascending))| == |SortSpec(s, key, ascending)|;
  }

  /** SortSpec orders its result by the comparator. */
  lemma {:induction false} SortSpecSorted<T>(s: seq<T>, key: T -> Key, ascending: bool)
    ensures Sorted(SortSpec(s, key, ascending), key, ascending)
    decreases |s|
  {
    if s != [] {
      SortSpecSorted(s[..|s| - 1], key, ascending);
      InsertSorted(SortSpec(s[..|s| - 1], key, ascending), s[|s| - 1], key, ascending);
    }
  }

  /** Stability: the elements sharing any one key keep their input order. */
  lemma {:induction false} SortSpecStable<T>(s: seq<T>, key: T -> Key, ascending: bool, k: Key)
    ensures Ties(SortSpec(s, key, ascending), key, k) == Ties(s, key, k)
    decreases |s|
  {
    if s != [] {
      SortSpecStable(s[..|s| - 1], key, ascending, k);
      InsertTies(SortSpec(s[..|s| - 1], key, ascending), s[|s| - 1], key, ascending, k);
    }
  }

  /** A sorted input is returned as it is. */
  lemma {:induction false} SortSpecOfSorted<T>(s: seq<T>, key: T -> Key, ascending: bool)
    requires Sorted(s, key, ascending)
    ensures SortSpec(s, key, ascending) == s
    decreases |s|
  {
    if s != [] {
      var init, x := s[..|s| - 1], s[|s| - 1];
      assert Sorted(init, key, ascending) by {
        forall i, j | 0 <= i < j < |init|
          ensures Compare(key(init[i]), key(init[j]), ascending) <= 0
        {
          assert init[i] == s[i] && init[j] == s[j];
        }
      }
      SortSpecOfSorted(init, key, ascending);
      if init != [] {
        assert Compare(key(s[|init| - 1]), key(s[|s| - 1]), ascending) <= 0;
        CompareAntisymmetric(key(init[|init| - 1]), key(x), ascending);
        assert !Before(key, ascending, x, init[|init| - 1]);
      }
      assert Insert(init, x, key, ascending) == init + [x];
      assert s == init + [x];
    }
  }

  /** Sorting twice with the same key and direction changes nothing the second time. */
  lemma SortSpecIdempotent<T>(s: seq<T>, key: T -> Key, ascending: bool)
    ensures SortSpec(SortSpec(s, key, ascending), key, ascending) == SortSpec(s, key, ascending)
  {
    SortSpecSorted(s, key, ascending);
    SortSpecOfSorted(SortSpec(s, key, ascending), key, ascending);
  }

  /**
   * Two sequences that are both sorted and agree on the order within every
   * group of equal keys are equal: a stable sort has exactly one possible
   * result, whatever algorithm computes it.
   */
  lemma {:induction false} SortUnique<T>(a: seq<T>, b: seq<T>, key: T -> Key, ascending: bool)
    requires Sorted(a, key, ascending) && Sorted(b, key, ascending)
    requires forall k :: Ties(a, key, k) == Ties(b, key, k)
    ensures a == b
    decreases |a| + |b|
  {
    if a == [] || b == [] {
      if a != [] {
        TiesEndsWithLast(a, key);
      } else if b != [] {
        TiesEndsWithLast(b, key);
      }
    } else {
      var la, lb := a[|a| - 1], b[|b| - 1];
      var ia, ib := a[..|a| - 1], b[..|b| - 1];
      SameLastKey(a, b, key, ascending);
      var k := key(la);
      assert a == ia + [la];
      assert b == ib + [lb];
      forall k' ensures Ties(ia, key, k') == Ties(ib, key, k') {
        TiesSnoc(ia, la, key, k');
        TiesSnoc(ib, lb, key, k');
        assert Ties(a, key, k') == Ties(b, key, k');
        if k' == k {
          var x, y := Ties(ia, key, k'), Ties(ib, key, k');
          assert x + [la] == y + [lb];
          assert |x| == |y|;
          assert x == (x + [la])[..|x|];
          assert y == (y + [lb])[..|y|];
          assert x == y;
        } else {
          var x, y := Ties(ia, key, k'), Ties(ib, key, k');
          assert x + [] == y + [];
          assert x + [] == x && y + [] == y;
        }
      }
      assert Sorted(ia, key, ascending);
      assert Sorted(ib, key, ascending);
      SortUnique(ia, ib, key, ascending);
      TiesSnoc(ia, la, key, k);
      TiesSnoc(ib, lb, key, k);
      assert Ties(a, key, k)[|Ties(a, key, k)| - 1] == la;
    }
  }

  lemma TiesEndsWithLast<T>(s: seq<T>, key: T -> Key)
    requires s != []
    ensures Ties(s, key, key(s[|s| - 1])) != []
    ensures Ties(s, key, key(s[|s| - 1]))[|Ties(s, key, key(s[|s| - 1]))| - 1] == s[|s| - 1]
  {
  }

  /** Two sorted sequences with the same groups of equal keys end with the same key. */
  lemma SameLastKey<T>(a: seq<T>, b: seq<T>, key: T -> Key, ascending: bool)
    requires a != [] && b != []
    requires Sorted(a, key, ascending) && Sorted(b, key, ascending)
    requires forall k :: Ties(a, key, k) == Ties(b, key, k)
    ensures key(a[|a| - 1]) == key(b[|b| - 1])
  {
    var la, lb := a[|a| - 1], b[|b| - 1];
    LastIsGreatest(a, lb, key, ascending);
    LastIsGreatest(b, la, key, ascending);
    CompareAntisymmetric(key(la), key(lb), ascending);
  }

  /** If some element of sorted a has the key of y, then y's key is not after a's last. */
  lemma LastIsGreatest<T>(a: seq<T>, y: T, key: T -> Key, ascending: bool)
    requires a != [] && Sorted(a, key, ascending)
    requires Ties(a, key, key(y)) != []
    ensures Compare(key(y), key(a[|a| - 1]), ascending) <= 0
  {
    var t := Ties(a, key, key(y));
    assert key(t[0]) == key(y) && t[0] in a;
    var j :| 0 <= j < |a| && a[j] == t[0];
    if j < |a| - 1 {
      assert Compare(key(a[j]), key(a[|a| - 1]), ascending) <= 0;
    }
  }

  /** The three properties of SortSpec in the terms of the source: permutation, order, stability. */
  lemma SortSpecCorrect<T>(s: seq<T>, key: T -> Key, ascending: bool)
    ensures var r := SortSpec(s, key, ascending);
      && multiset(r) == multiset(s)
      && (forall i, j :: 0 <= i < j < |r| ==>
            if ascending then LessEq(key(r[i]), key(r[j])) else LessEq(key(r[j]), key(r[i])))
      && (forall k :: Ties(r, key, k) == Ties(s, key, k))
  {
    var r := SortSpec(s, key, ascending);
    SortSpecPermutation(s, key, ascending);
    SortSpecSorted(s, key, ascending);
    forall k ensures Ties(r, key, k) == Ties(s, key, k) {
      SortSpecStable(s, key, ascending, k);
    }
  }

  /**
   * The sort as the loops of an insertion sort: each element, left to right,
   * is moved leftwards past the elements it goes strictly before.
   */
  method StableSort<T>(s: seq<T>, key: T -> Key, ascending: bool) returns (r: seq<T>)
    ensures r == SortSpec(s, key, ascending)
  {
    r := [];
    for i := 0 to |s|
      invariant r == SortSpec(s[..i], key, ascending)
    {
      r := InsertInto(r, s[i], key, ascending);
      assert s[..i + 1][..i] == s[..i];
    }
    assert s[..|s|] == s;
  }

  /** One step of the insertion sort: x goes after every element it does not come before. */
  method InsertInto<T>(r: seq<T>, x: T, key: T -> Key, ascending: bool) returns (r': seq<T>)
    ensures r' == Insert(r, x, key, ascending)
  {
    var j := |r|;
    assert r[..j] == r && r[j..] == [];
    while j > 0 && Before(key, ascending, x, r[j - 1])
      invariant 0 <= j <= |r|
      invariant Insert(r, x, key, ascending) == Insert(r[..j], x, key, ascending) + r[j..]
    {
      InsertShift(r, j, x, key, ascending);
      j := j - 1;
    }
    InsertStop(r, j, x, key, ascending);
    r' := r[..j] + [x] + r[j..];
  }

  lemma InsertShift<T>(r: seq<T>, j: int, x: T, key: T -> Key, ascending: bool)
    requires 0 < j <= |r| && Before(key, ascending, x, r[j - 1])
    ensures Insert(r[..j], x, key, ascending) + r[j..]
         == Insert(r[..j - 1], x, key, ascending) + r[j - 1..]
  {
    assert r[..j][..j - 1] == r[..j - 1];
    assert [r[j - 1]] + r[j..] == r[j - 1..];
  }

  lemma InsertStop<T>(r: seq<T>, j: int, x: T, key: T -> Key, ascending: bool)
    requires 0 <= j <= |r| && (j == 0 || !Before(key, ascending, x, r[j - 1]))
    ensures Insert(r[..j], x, key, ascending) + r[j..] == r[..j] + [x] + r[j..]
  {
    assert r[..j] == [] || r[..j][j - 1] == r[j - 1];
  }

}
