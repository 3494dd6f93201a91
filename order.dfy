/**
 * Orderings used by the `ORDER BY` clauses of the analytics queries: a generic
 * strict total order, strictly sorted (hence duplicate-free) sequences, the
 * insertion that builds them, and lexicographic order on strings.
 */
module Order {

  ghost predicate StrictTotalOrder<T(!new)>(lt: (T, T) -> bool)
  {
    && (forall a :: !lt(a, a))
    && (forall a, b, c :: lt(a, b) && lt(b, c) ==> lt(a, c))
    && (forall a, b :: a == b || lt(a, b) || lt(b, a))
  }

  /** Strictly ascending under lt: every earlier element is below every later one. */
  predicate Sorted<T>(xs: seq<T>, lt: (T, T) -> bool)
  {
    forall i, j :: 0 <= i < j < |xs| ==> lt(xs[i], xs[j])
  }

  function Elements<T>(xs: seq<T>): set<T>
  {
    set x | x in xs
  }

  /** Inserts x into a strictly sorted sequence, keeping it strictly sorted and free of duplicates. */
  function Insert<T(==,!new)>(xs: seq<T>, x: T, lt: (T, T) -> bool): (r: seq<T>)
    requires StrictTotalOrder(lt) && Sorted(xs, lt)
    ensures Sorted(r, lt)
    ensures Elements(r) == Elements(xs) + {x}
    ensures |r| == if x in xs then |xs| else |xs| + 1
    decreases |xs|
  {
    if xs == [] then [x]
    else if x == xs[0] then xs
    else if lt(x, xs[0]) then
      assert forall j :: 0 <= j < |xs| ==> lt(x, xs[j]);
      [x] + xs
    else
      var rest := Insert(xs[1..], x, lt);
      assert xs == [xs[0]] + xs[1..];
      assert lt(xs[0], x);
      forall y | y in rest ensures lt(xs[0], y) {
        assert y in Elements(rest);
        if y != x {
          assert y in Elements(xs[1..]);
          var k :| 0 <= k < |xs[1..]| && xs[1..][k] == y;
          assert xs[k + 1] == y;
        }
      }
      assert Elements([xs[0]] + rest) == {xs[0]} + Elements(rest);
      assert Elements(xs) == {xs[0]} + Elements(xs[1..]);
      [xs[0]] + rest
  }

  lemma ElementsExactly<T>(xs: seq<T>, s: set<T>)
    requires forall x :: x in xs <==> x in s
    ensures Elements(xs) == s
  {
  }

  /** A list without duplicates is its head added to the elements of its tail, which lack the head. */
  lemma ElementsUncons<T>(xs: seq<T>)
    requires xs != [] && forall i, j :: 0 <= i < j < |xs| ==> xs[i] != xs[j]
    ensures Elements(xs) == Elements(xs[1..]) + {xs[0]}
    ensures xs[0] !in Elements(xs[1..])
  {
    assert xs == [xs[0]] + xs[1..];
  }

  /** A strictly sorted sequence has no duplicates, so it has as many elements as its set. */
  lemma {:induction false} SortedCard<T(!new)>(xs: seq<T>, lt: (T, T) -> bool)
    requires StrictTotalOrder(lt) && Sorted(xs, lt)
    ensures |Elements(xs)| == |xs|
  {
    if xs != [] {
      SortedCard(xs[1..], lt);
      assert xs == [xs[0]] + xs[1..];
      assert Elements(xs) == {xs[0]} + Elements(xs[1..]);
      assert xs[0] !in xs[1..];
    }
  }

  /**
   * The distinct keys of a list of records in ascending order, as a
   * `GROUP BY key ORDER BY key` query returns them.
   */
  function SortedKeys<R, K(==,!new)>(rows: seq<R>, key: R -> K, lt: (K, K) -> bool): (ks: seq<K>)
    requires StrictTotalOrder(lt)
    ensures Sorted(ks, lt)
    ensures Elements(ks) == set r | r in rows :: key(r)
  {
    if rows == [] then []
    else
      var n := |rows| - 1;
      assert rows == rows[..n] + [rows[n]];
      assert (set r | r in rows :: key(r)) == (set r | r in rows[..n] :: key(r)) + {key(rows[n])};
      Insert(SortedKeys(rows[..n], key, lt), key(rows[n]), lt)
  }

  /** Lexicographic order on strings by character code; a proper prefix comes first. */
  predicate StrLess(a: string, b: string)
    decreases |a|
  {
    if a == [] then b != []
    else if b == [] then false
    else if a[0] != b[0] then a[0] < b[0]
    else StrLess(a[1..], b[1..])
  }

  lemma {:induction false} StrLessIrreflexive(a: string)
    ensures !StrLess(a, a)
    decreases |a|
  {
    if a != [] {
      StrLessIrreflexive(a[1..]);
    }
  }

  lemma {:induction false} StrLessTransitive(a: string, b: string, c: string)
    requires StrLess(a, b) && StrLess(b, c)
    ensures StrLess(a, c)
    decreases |a|
  {
    if a != [] && a[0] == b[0] && b[0] == c[0] {
      StrLessTransitive(a[1..], b[1..], c[1..]);
    }
  }

  lemma {:induction false} StrLessTotal(a: string, b: string)
    ensures a == b || StrLess(a, b) || StrLess(b, a)
    decreases |a|
  {
    if a != [] && b != [] && a[0] == b[0] {
      StrLessTotal(a[1..], b[1..]);
      assert a == [a[0]] + a[1..];
      assert b == [b[0]] + b[1..];
    }
  }

  lemma StrLessIsStrictTotal()
    ensures StrictTotalOrder(StrLess)
  {
    forall a: string ensures !StrLess(a, a) {
      StrLessIrreflexive(a);
    }
    forall a: string, b: string, c: string | StrLess(a, b) && StrLess(b, c)
      ensures StrLess(a, c)
    {
      StrLessTransitive(a, b, c);
    }
    forall a: string, b: string ensures a == b || StrLess(a, b) || StrLess(b, a) {
      StrLessTotal(a, b);
    }
  }
}
