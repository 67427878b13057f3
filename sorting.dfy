/**
 * Insertion into a sorted sequence under a total preorder: the order in which
 * the database returns the documents of a sorted query (documents that
 * compare equal may come in any order).
 */
module Sorting {

  /** `leq` is total and transitive. */
  ghost predicate TotalPreorder<T(!new)>(leq: (T, T) -> bool) {
    && (forall a, b :: leq(a, b) || leq(b, a))
    && (forall a, b, c :: leq(a, b) && leq(b, c) ==> leq(a, c))
  }

  predicate Sorted<T>(s: seq<T>, leq: (T, T) -> bool) {
    forall i, j :: 0 <= i < j < |s| ==> leq(s[i], s[j])
  }

  /** No two elements of `s` have the same key. */
  predicate DistinctKeys<T, K(==)>(s: seq<T>, key: T -> K) {
    forall i, j :: 0 <= i < j < |s| ==> key(s[i]) != key(s[j])
  }

  /** `a` in front of a sorted sequence whose first element it precedes. */
  lemma ConsSorted<T(!new)>(a: T, s: seq<T>, leq: (T, T) -> bool)
    requires TotalPreorder(leq) && Sorted(s, leq) && (s == [] || leq(a, s[0]))
    ensures Sorted([a] + s, leq)
  {
    forall j | 0 < j < |[a] + s| ensures leq(a, ([a] + s)[j]) {
      if j > 1 {
        assert leq(s[0], s[j - 1]);
      }
    }
  }

  /** Inserts `b` after the elements that precede it. */
  function Insert<T(!new)>(s: seq<T>, b: T, leq: (T, T) -> bool): (r: seq<T>)
    requires TotalPreorder(leq) && Sorted(s, leq)
    ensures Sorted(r, leq)
    ensures multiset(r) == multiset(s) + multiset{b}
    ensures r[0] == b || (s != [] && r[0] == s[0])
    decreases |s|
  {
    if s == [] || leq(b, s[0]) then
      ConsSorted(b, s, leq);
      [b] + s
    else
      var rest := Insert(s[1..], b, leq);
      assert s == [s[0]] + s[1..];
      assert rest[0] != b ==> rest[0] == s[1];
      ConsSorted(s[0], rest, leq);
      [s[0]] + rest
  }

  /** The elements of Insert(s, b) are those of `s` and `b`. */
  lemma InsertMembers<T(!new)>(s: seq<T>, b: T, leq: (T, T) -> bool)
    requires TotalPreorder(leq) && Sorted(s, leq)
    ensures forall x :: x in Insert(s, b, leq) <==> x in s || x == b
  {
    var r := Insert(s, b, leq);
    forall x ensures x in r <==> x in s || x == b {
      assert x in r <==> x in multiset(r);
      assert x in s <==> x in multiset(s);
    }
  }

  lemma ConsDistinct<T, K>(a: T, s: seq<T>, key: T -> K)
    requires DistinctKeys(s, key) && forall x :: x in s ==> key(x) != key(a)
    ensures DistinctKeys([a] + s, key)
  {
    forall j | 0 < j < |[a] + s| ensures key(([a] + s)[j]) != key(a) {
      assert ([a] + s)[j] in s;
    }
  }

  /** Inserting an element with a new key keeps the keys distinct. */
  lemma {:induction false} InsertKeepsKeysDistinct<T(!new), K>(s: seq<T>, b: T, leq: (T, T) -> bool, key: T -> K)
    requires TotalPreorder(leq) && Sorted(s, leq)
    requires DistinctKeys(s, key) && forall x :: x in s ==> key(x) != key(b)
    ensures DistinctKeys(Insert(s, b, leq), key)
    decreases |s|
  {
    if s == [] || leq(b, s[0]) {
      ConsDistinct(b, s, key);
    } else {
      assert s == [s[0]] + s[1..];
      var rest := Insert(s[1..], b, leq);
      InsertKeepsKeysDistinct(s[1..], b, leq, key);
      InsertMembers(s[1..], b, leq);
      forall x | x in rest ensures key(x) != key(s[0]) {
        if x != b {
          var j :| 0 <= j < |s[1..]| && s[1..][j] == x;
          assert s[j + 1] == x;
        }
      }
      ConsDistinct(s[0], rest, key);
    }
  }
}
