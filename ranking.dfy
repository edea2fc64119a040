/** Ordering a table by one numeric column, highest first, as pandas'
    `sort_values(by=..., ascending=False)` does. Pandas' default sort is not
    stable, so the only promises made here are the ones every such sort keeps:
    the result is non-increasing in the column and is a permutation of the
    input. */
module Ranking {

  /** The rows are in non-increasing order of `key`. */
  predicate NonIncreasing<T>(rows: seq<T>, key: T -> real) {
    forall i, j :: 0 <= i < j < |rows| ==> key(rows[i]) >= key(rows[j])
  }

  /** Puts `x` into a non-increasing sequence at a place that keeps it
      non-increasing. */
  function Insert<T(==)>(x: T, rows: seq<T>, key: T -> real): (r: seq<T>)
    requires NonIncreasing(rows, key)
    ensures NonIncreasing(r, key)
    ensures multiset(r) == multiset(rows) + multiset{x}
  {
    if rows == [] then [x]
    else if key(x) >= key(rows[0]) then [x] + rows
    else
      var tail := Insert(x, rows[1..], key);
      HeadBoundsRest(x, rows, tail, key);
      [rows[0]] + tail
  }

  /** When `x` goes after the head, everything after the head, `x` included,
      is at most the head. */
  lemma HeadBoundsRest<T>(x: T, rows: seq<T>, tail: seq<T>, key: T -> real)
    requires NonIncreasing(rows, key) && rows != [] && key(x) < key(rows[0])
    requires multiset(tail) == multiset(rows[1..]) + multiset{x}
    ensures forall y :: y in tail ==> key(y) <= key(rows[0])
    ensures multiset([rows[0]] + tail) == multiset(rows) + multiset{x}
  {
    assert rows == [rows[0]] + rows[1..];
    forall y | y in tail ensures key(y) <= key(rows[0]) {
      assert y in multiset(tail);
      assert y == x || y in multiset(rows[1..]);
    }
  }

  /** The table ordered by `key`, highest first: non-increasing and a
      permutation of `rows`. */
  function SortDesc<T(==)>(rows: seq<T>, key: T -> real): (r: seq<T>)
    ensures NonIncreasing(r, key)
    ensures multiset(r) == multiset(rows)
  {
    if rows == [] then []
    else
      assert rows == [rows[0]] + rows[1..];
      Insert(rows[0], SortDesc(rows[1..], key), key)
  }

  /** Two orderings of the same rows that both satisfy the contract of
      `SortDesc` list the same key values in the same positions: only the
      order among rows with equal keys can differ. */
  lemma {:induction false} SortedPermutationsAgreeOnKeys<T>(a: seq<T>, b: seq<T>, key: T -> real)
    requires NonIncreasing(a, key) && NonIncreasing(b, key)
    requires multiset(a) == multiset(b)
    ensures |a| == |b|
    ensures forall k :: 0 <= k < |a| ==> key(a[k]) == key(b[k])
  {
    assert |a| == |multiset(a)| == |multiset(b)| == |b|;
    if a != [] {
      assert a == [a[0]] + a[1..];
      assert a[0] in multiset(b) && b[0] in multiset(a);
      var i :| 0 <= i < |b| && b[i] == a[0];
      var j :| 0 <= j < |a| && a[j] == b[0];
      assert key(a[0]) == key(b[0]);
      var b' := b[..i] + b[i + 1..];
      RemoveMatchingHeads(a, b, i);
      RemovePreservesOrder(b, i, key);
      SortedPermutationsAgreeOnKeys(a[1..], b', key);
      LeadingKeysEqual(b, i, key);
      forall k | 0 < k < |a| ensures key(a[k]) == key(b[k]) {
        assert key(a[k]) == key(b'[k - 1]);
        if k - 1 < i {
          assert b'[k - 1] == b[k - 1];
        } else {
          assert b'[k - 1] == b[k];
        }
      }
    }
  }

  lemma RemoveMatchingHeads<T>(a: seq<T>, b: seq<T>, i: nat)
    requires multiset(a) == multiset(b) && a != [] && i < |b| && b[i] == a[0]
    ensures multiset(a[1..]) == multiset(b[..i] + b[i + 1..])
  {
    assert a == [a[0]] + a[1..];
    assert b == b[..i] + [b[i]] + b[i + 1..];
    assert multiset(b) == multiset(b[..i]) + multiset{b[i]} + multiset(b[i + 1..]);
    assert multiset(a) == multiset{a[0]} + multiset(a[1..]);
    forall x ensures multiset(a[1..])[x] == multiset(b[..i] + b[i + 1..])[x] {
      assert multiset(a)[x] == multiset{a[0]}[x] + multiset(a[1..])[x];
      assert multiset(b)[x] == multiset(b[..i])[x] + multiset{b[i]}[x] + multiset(b[i + 1..])[x];
    }
  }

  lemma RemovePreservesOrder<T>(rows: seq<T>, i: nat, key: T -> real)
    requires NonIncreasing(rows, key) && i < |rows|
    ensures NonIncreasing(rows[..i] + rows[i + 1..], key)
  {
    var r := rows[..i] + rows[i + 1..];
    forall p, q | 0 <= p < q < |r| ensures key(r[p]) >= key(r[q]) {
      var p' := if p < i then p else p + 1;
      var q' := if q < i then q else q + 1;
      assert r[p] == rows[p'] && r[q] == rows[q'];
    }
  }

  lemma LeadingKeysEqual<T>(rows: seq<T>, i: nat, key: T -> real)
    requires NonIncreasing(rows, key) && i < |rows| && key(rows[i]) == key(rows[0])
    ensures forall k :: 0 <= k <= i ==> key(rows[k]) == key(rows[0])
  {
  }
}
