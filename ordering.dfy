/**
 * Ordering shows by how many showtimes they have left. The source sorts
 * with a comparator that never reports a tie, so the order of shows with
 * equal counts is unspecified; this model uses a deterministic insertion
 * sort that keeps tied elements in their input order, and promises only
 * what the source relies on: a permutation, non-decreasing in the key.
 */
module Ordering {

  /** No element occurs twice. */
  predicate Distinct<T(==)>(xs: seq<T>)
  {
    forall i, j :: 0 <= i < j < |xs| ==> xs[i] != xs[j]
  }

  /** In a sequence without repetitions each element occurs at most once. */
  lemma {:induction false} DistinctOnce<T>(xs: seq<T>, x: T)
    requires Distinct(xs)
    ensures multiset(xs)[x] <= 1
  {
    if xs != [] {
      assert xs == [xs[0]] + xs[1..];
      assert Distinct(xs[1..]) by {
        forall i, j | 0 <= i < j < |xs[1..]| ensures xs[1..][i] != xs[1..][j] {
          assert xs[1..][i] == xs[i + 1] && xs[1..][j] == xs[j + 1];
        }
      }
      DistinctOnce(xs[1..], x);
      assert xs[0] !in xs[1..];
    }
  }

  /** Rearranging a sequence without repetitions gives one without repetitions. */
  lemma DistinctPermuted<T>(a: seq<T>, b: seq<T>)
    requires multiset(a) == multiset(b) && Distinct(a)
    ensures Distinct(b)
  {
    forall i, j | 0 <= i < j < |b| ensures b[i] != b[j] {
      DistinctOnce(a, b[j]);
      assert b == b[..j] + [b[j]] + b[j + 1..];
      assert b[i] in b[..j];
      assert multiset(b)[b[j]] == multiset(b[..j])[b[j]] + 1 + multiset(b[j + 1..])[b[j]];
    }
  }

  /** Every element has a key. */
  predicate Keyed<T>(xs: seq<T>, key: map<T, int>)
  {
    forall x :: x in xs ==> x in key
  }

  /** Non-decreasing in the key. */
  predicate Ascending<T>(xs: seq<T>, key: map<T, int>)
    requires Keyed(xs, key)
  {
    forall i, j :: 0 <= i < j < |xs| ==> key[xs[i]] <= key[xs[j]]
  }

  /** Inserts x before the first element whose key is not smaller. */
  function Insert<T>(x: T, sorted: seq<T>, key: map<T, int>): (r: seq<T>)
    requires x in key && Keyed(sorted, key)
    ensures multiset(r) == multiset(sorted) + multiset{x}
    ensures forall k :: 0 <= k < |r| ==> r[k] == x || r[k] in sorted
  {
    if sorted == [] || key[x] <= key[sorted[0]] then [x] + sorted
    else
      assert sorted == [sorted[0]] + sorted[1..];
      [sorted[0]] + Insert(x, sorted[1..], key)
  }

  /** Inserting into an ascending sequence keeps it ascending. */
  lemma {:induction false} InsertAscending<T>(x: T, sorted: seq<T>, key: map<T, int>)
    requires x in key && Keyed(sorted, key) && Ascending(sorted, key)
    ensures Keyed(Insert(x, sorted, key), key) && Ascending(Insert(x, sorted, key), key)
  {
    if sorted != [] && key[x] > key[sorted[0]] {
      InsertAscending(x, sorted[1..], key);
      var rest := Insert(x, sorted[1..], key);
      var r := Insert(x, sorted, key);
      assert r == [sorted[0]] + rest;
      forall i, j | 0 <= i < j < |r| ensures key[r[i]] <= key[r[j]] {
        if i == 0 {
          assert r[j] == rest[j - 1];
        }
      }
    }
  }

  /** The shows rearranged so that their keys never decrease. */
  function SortBy<T>(xs: seq<T>, key: map<T, int>): (r: seq<T>)
    requires Keyed(xs, key)
    ensures multiset(r) == multiset(xs)
    ensures |r| == |xs| && Keyed(r, key)
    ensures Ascending(r, key)
  {
    if xs == [] then []
    else
      assert xs == [xs[0]] + xs[1..];
      InsertAscending(xs[0], SortBy(xs[1..], key), key);
      Insert(xs[0], SortBy(xs[1..], key), key)
  }
}
