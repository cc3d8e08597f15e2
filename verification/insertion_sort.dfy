/**
  The stable sort standing for PHP's `usort`, modelled for every length as a
  right-to-left linear insertion sort: each element walks the sorted prefix from its
  end and stops at the first element that does not compare greater than it. PHP 8
  breaks comparator ties by original position; every element of the prefix was
  originally earlier, so a tie also stops the walk.
 */
module InsertionSort {
  import opened Ranks

  /**
    Where `x` lands in the sorted prefix `p`: every element after that point compares
    greater than `x`, and the element just before it does not.
   */
  function InsertionPoint<T>(cmp: (T, T) -> int, x: T, p: seq<T>): (k: nat)
    ensures k <= |p|
    ensures forall i :: k <= i < |p| ==> cmp(p[i], x) > 0
    ensures k > 0 ==> cmp(p[k - 1], x) <= 0
  {
    if |p| == 0 then 0
    else if cmp(p[|p| - 1], x) > 0 then InsertionPoint(cmp, x, p[..|p| - 1])
    else |p|
  }

  function Insert<T>(cmp: (T, T) -> int, x: T, p: seq<T>): (r: seq<T>)
    ensures multiset(r) == multiset(p) + multiset{x}
  {
    var k := InsertionPoint(cmp, x, p);
    assert p == p[..k] + p[k..];
    p[..k] + [x] + p[k..]
  }

  /** Inserts the elements one after another, from the first to the last. */
  function Sort<T>(cmp: (T, T) -> int, s: seq<T>): (r: seq<T>)
    ensures multiset(r) == multiset(s)
  {
    if |s| == 0 then []
    else
      assert s == s[..|s| - 1] + [s[|s| - 1]];
      Insert(cmp, s[|s| - 1], Sort(cmp, s[..|s| - 1]))
  }

  lemma SortLength<T>(cmp: (T, T) -> int, s: seq<T>)
    ensures |Sort(cmp, s)| == |s|
  {
    assert |multiset(Sort(cmp, s))| == |multiset(s)|;
  }

  /** The elements of `s` that satisfy `P`, in their order in `s`. */
  function Filter<T>(P: T -> bool, s: seq<T>): (r: seq<T>)
    ensures |r| <= |s|
  {
    if |s| == 0 then []
    else
      Filter(P, s[..|s| - 1]) + (if P(s[|s| - 1]) then [s[|s| - 1]] else [])
  }

  lemma {:induction false} FilterConcat<T>(P: T -> bool, a: seq<T>, b: seq<T>)
    ensures Filter(P, a + b) == Filter(P, a) + Filter(P, b)
    decreases |b|
  {
    if |b| == 0 {
      assert a + b == a;
    } else {
      var b' := b[..|b| - 1];
      assert (a + b)[..|a + b| - 1] == a + b';
      FilterConcat(P, a, b');
    }
  }

  lemma {:induction false} FilterNone<T>(P: T -> bool, s: seq<T>)
    requires forall i :: 0 <= i < |s| ==> !P(s[i])
    ensures Filter(P, s) == []
    decreases |s|
  {
    if |s| > 0 {
      FilterNone(P, s[..|s| - 1]);
    }
  }

  /** The insertion walk never steps over an element tied with `x`. */
  lemma {:induction false} NoTieAfterInsertionPoint<T>(cmp: (T, T) -> int, P: T -> bool, x: T, p: seq<T>)
    requires forall a, b :: P(a) && P(b) ==> cmp(a, b) <= 0
    requires P(x)
    ensures forall i :: 0 <= i < |p| - InsertionPoint(cmp, x, p) ==> !P(p[InsertionPoint(cmp, x, p)..][i])
  {
    var k := InsertionPoint(cmp, x, p);
    forall i | 0 <= i < |p| - k
      ensures !P(p[k..][i])
    {
      assert p[k..][i] == p[k + i];
      assert cmp(p[k + i], x) > 0;
    }
  }

  /** Splicing `x` into `a + b` adds it to its class at the end, when no element of its class follows it. */
  lemma {:induction false} FilterSplice<T>(P: T -> bool, a: seq<T>, x: T, b: seq<T>)
    requires P(x) ==> Filter(P, b) == []
    ensures Filter(P, a + [x] + b) == Filter(P, a + b) + (if P(x) then [x] else [])
  {
    FilterConcat(P, a, b);
    FilterConcat(P, a + [x], b);
    FilterConcat(P, a, [x]);
    assert Filter(P, [x]) == (if P(x) then [x] else []) by {
      assert [x][..0] == [];
    }
  }

  /** How inserting `x` changes the class `P`, when the walk steps over no element of `x`'s class. */
  lemma {:induction false} FilterOfInsert<T>(cmp: (T, T) -> int, P: T -> bool, x: T, p: seq<T>)
    requires P(x) ==> forall i :: 0 <= i < |p| - InsertionPoint(cmp, x, p) ==> !P(p[InsertionPoint(cmp, x, p)..][i])
    ensures Filter(P, Insert(cmp, x, p)) == Filter(P, p) + (if P(x) then [x] else [])
  {
    var k := InsertionPoint(cmp, x, p);
    var a, b := p[..k], p[k..];
    assert Insert(cmp, x, p) == a + [x] + b;
    assert a + b == p;
    if P(x) {
      FilterNone(P, b);
    }
    FilterSplice(P, a, x, b);
  }

  /** Inserting `x` adds it at the end of its class and leaves every class's order alone. */
  lemma {:induction false} InsertKeepsOrderOfTies<T>(cmp: (T, T) -> int, P: T -> bool, x: T, p: seq<T>)
    requires forall a, b :: P(a) && P(b) ==> cmp(a, b) <= 0
    ensures Filter(P, Insert(cmp, x, p)) == Filter(P, p) + (if P(x) then [x] else [])
  {
    if P(x) {
      NoTieAfterInsertionPoint(cmp, P, x, p);
    }
    FilterOfInsert(cmp, P, x, p);
  }

  /**
    Stability: if the comparator never puts one element of a class strictly after
    another element of the same class, sorting keeps the class in its original order.
   */
  lemma {:induction false} SortKeepsOrderOfTies<T>(cmp: (T, T) -> int, P: T -> bool, s: seq<T>)
    requires forall a, b :: P(a) && P(b) ==> cmp(a, b) <= 0
    ensures Filter(P, Sort(cmp, s)) == Filter(P, s)
    decreases |s|
  {
    if |s| > 0 {
      var s', x := s[..|s| - 1], s[|s| - 1];
      SortKeepsOrderOfTies(cmp, P, s');
      InsertKeepsOrderOfTies(cmp, P, x, Sort(cmp, s'));
    }
  }

  /** The comparator puts elements in the order of their keys, at least among elements satisfying `ok`. */
  ghost predicate Respects<T(!new)>(cmp: (T, T) -> int, K: T -> Rank, ok: T -> bool) {
    forall a, b :: ok(a) && ok(b) && Below(K(a), K(b)) ==> cmp(a, b) < 0 && cmp(b, a) > 0
  }

  /** No element has a smaller key than an element before it. */
  ghost predicate KeySorted<T>(K: T -> Rank, s: seq<T>) {
    forall i, j :: 0 <= i < j < |s| ==> !Below(K(s[j]), K(s[i]))
  }

  /** Placing `x` between two key-sorted runs whose keys it separates gives a key-sorted sequence. */
  lemma {:induction false} KeySortedSplice<T>(K: T -> Rank, a: seq<T>, x: T, b: seq<T>)
    requires KeySorted(K, a) && KeySorted(K, b)
    requires forall i :: 0 <= i < |a| ==> !Below(K(x), K(a[i]))
    requires forall i :: 0 <= i < |b| ==> !Below(K(b[i]), K(x))
    ensures KeySorted(K, a + [x] + b)
  {
    var r := a + [x] + b;
    forall i, j | 0 <= i < j < |r|
      ensures !Below(K(r[j]), K(r[i]))
    {
      var n := |a|;
      if j < n {
        assert r[i] == a[i] && r[j] == a[j];
      } else if j == n {
        assert r[i] == a[i] && r[j] == x;
      } else if i < n {
        assert r[i] == a[i] && r[j] == b[j - n - 1];
        NotBelowTransitive(K(a[i]), K(x), K(b[j - n - 1]));
      } else if i == n {
        assert r[i] == x && r[j] == b[j - n - 1];
      } else {
        assert r[i] == b[i - n - 1] && r[j] == b[j - n - 1];
      }
    }
  }

  /** In a key-sorted sequence, an element with a strictly smaller key sits strictly earlier. */
  lemma KeySortedPlaces<T>(K: T -> Rank, s: seq<T>, i: int, j: int)
    requires KeySorted(K, s)
    requires 0 <= i < |s| && 0 <= j < |s|
    requires Below(K(s[i]), K(s[j]))
    ensures i < j
  {
    BelowIsStrictTotalOrder(K(s[i]), K(s[j]), K(s[j]));
  }

  lemma {:induction false} InsertKeepsKeySorted<T(!new)>(cmp: (T, T) -> int, K: T -> Rank, ok: T -> bool, x: T, p: seq<T>)
    requires Respects(cmp, K, ok)
    requires ok(x) && forall y :: y in p ==> ok(y)
    requires KeySorted(K, p)
    ensures KeySorted(K, Insert(cmp, x, p))
  {
    var k := InsertionPoint(cmp, x, p);
    var a, b := p[..k], p[k..];
    // Everything before the insertion point has a key no greater than x's ...
    forall i | 0 <= i < |a|
      ensures !Below(K(x), K(a[i]))
    {
      assert p[k - 1] in p;
      assert !Below(K(x), K(p[k - 1]));
      if i < k - 1 {
        NotBelowTransitive(K(p[i]), K(p[k - 1]), K(x));
      }
    }
    // ... and everything after it a key no smaller.
    forall i | 0 <= i < |b|
      ensures !Below(K(b[i]), K(x))
    {
      assert b[i] == p[k + i] && p[k + i] in p;
    }
    KeySortedSplice(K, a, x, b);
  }

  /** When the comparator follows a key, sorting yields a key-sorted sequence. */
  lemma {:induction false} SortIsKeySorted<T(!new)>(cmp: (T, T) -> int, K: T -> Rank, ok: T -> bool, s: seq<T>)
    requires Respects(cmp, K, ok)
    requires forall x :: x in s ==> ok(x)
    ensures KeySorted(K, Sort(cmp, s))
    decreases |s|
  {
    if |s| > 0 {
      var s', x := s[..|s| - 1], s[|s| - 1];
      assert forall y :: y in s' ==> y in s;
      SortIsKeySorted(cmp, K, ok, s');
      var p := Sort(cmp, s');
      assert forall y :: y in p ==> y in multiset(s');
      InsertKeepsKeySorted(cmp, K, ok, x, p);
    }
  }

  /** An element that does not compare below the last one is appended. */
  lemma {:induction false} InsertAfterLast<T>(cmp: (T, T) -> int, x: T, p: seq<T>)
    requires |p| == 0 || cmp(p[|p| - 1], x) <= 0
    ensures Insert(cmp, x, p) == p + [x]
  {
    assert p[..|p|] == p && p[|p|..] == [];
  }

  /** Swapping the operands of a pair that compares greater makes it compare less. */
  ghost predicate Antisymmetric<T(!new)>(cmp: (T, T) -> int) {
    forall a, b :: cmp(a, b) > 0 ==> cmp(b, a) < 0
  }

  /** Inserting into an ordered sequence keeps it ordered: `x` follows an element that does not compare greater and precedes one it compares below. */
  lemma InsertKeepsInOrder<T(!new)>(cmp: (T, T) -> int, x: T, p: seq<T>)
    requires Antisymmetric(cmp)
    requires InOrder(cmp, p)
    ensures InOrder(cmp, Insert(cmp, x, p))
  {
    var k := InsertionPoint(cmp, x, p);
    var r := Insert(cmp, x, p);
    assert |r| == |p| + 1 && r[k] == x;
    forall i | 0 < i < |r|
      ensures cmp(r[i - 1], r[i]) <= 0
    {
      if i < k {
        assert r[i - 1] == p[i - 1] && r[i] == p[i];
      } else if i == k {
        assert r[i - 1] == p[k - 1];
      } else if i == k + 1 {
        assert r[i] == p[k] && cmp(p[k], x) > 0;
      } else {
        assert r[i - 1] == p[i - 2] && r[i] == p[i - 1];
      }
    }
  }

  /** With an antisymmetric comparator, no neighbours of the sorted sequence compare greater. */
  lemma {:induction false} SortIsInOrder<T(!new)>(cmp: (T, T) -> int, s: seq<T>)
    requires Antisymmetric(cmp)
    ensures InOrder(cmp, Sort(cmp, s))
    decreases |s|
  {
    if |s| > 0 {
      SortIsInOrder(cmp, s[..|s| - 1]);
      InsertKeepsInOrder(cmp, s[|s| - 1], Sort(cmp, s[..|s| - 1]));
    }
  }

  /** Under a key-following comparator that ties equal keys, a pair in key order does not compare greater. */
  lemma CmpOfKeyOrderedPair<T(!new)>(cmp: (T, T) -> int, K: T -> Rank, ok: T -> bool, a: T, b: T)
    requires Respects(cmp, K, ok)
    requires forall a, b :: ok(a) && ok(b) && K(a) == K(b) ==> cmp(a, b) <= 0
    requires ok(a) && ok(b) && !Below(K(b), K(a))
    ensures cmp(a, b) <= 0
  {
    BelowIsStrictTotalOrder(K(a), K(b), K(b));
  }

  /** No element compares greater than the one after it. */
  predicate InOrder<T>(cmp: (T, T) -> int, s: seq<T>) {
    forall i :: 0 < i < |s| ==> cmp(s[i - 1], s[i]) <= 0
  }

  /** Sorting one more element inserts it into the sorted prefix. */
  lemma SortSnoc<T>(cmp: (T, T) -> int, s: seq<T>, p: seq<T>, x: T)
    requires s == p + [x]
    ensures Sort(cmp, s) == Insert(cmp, x, Sort(cmp, p))
  {
    assert s[..|p|] == p;
  }

  /** An element that does not compare below the end of a sequence the sort leaves alone is left alone too. */
  lemma SortKeepsAppended<T>(cmp: (T, T) -> int, s: seq<T>, p: seq<T>, x: T)
    requires s == p + [x]
    requires Sort(cmp, p) == p
    requires |p| == 0 || cmp(p[|p| - 1], x) <= 0
    ensures Sort(cmp, s) == s
  {
    SortSnoc(cmp, s, p, x);
    InsertAfterLast(cmp, x, p);
  }

  /** Dropping the last element keeps a sequence in order. */
  lemma InOrderOfPrefix<T>(cmp: (T, T) -> int, s: seq<T>)
    requires InOrder(cmp, s) && |s| > 0
    ensures InOrder(cmp, s[..|s| - 1])
    ensures s == s[..|s| - 1] + [s[|s| - 1]]
  {
    var s' := s[..|s| - 1];
    forall i | 0 < i < |s'|
      ensures cmp(s'[i - 1], s'[i]) <= 0
    {
      assert s'[i - 1] == s[i - 1] && s'[i] == s[i];
    }
  }

  /** A sequence whose neighbours never compare greater is left exactly as it is. */
  lemma {:induction false} SortOfInOrder<T>(cmp: (T, T) -> int, s: seq<T>)
    requires InOrder(cmp, s)
    ensures Sort(cmp, s) == s
    decreases |s|
  {
    if |s| > 0 {
      var s' := s[..|s| - 1];
      InOrderOfPrefix(cmp, s);
      SortOfInOrder(cmp, s');
      SortKeepsAppended(cmp, s, s', s[|s| - 1]);
    }
  }

  /** Under a key-following comparator that ties equal keys, neighbours in a key-sorted sequence never compare greater. */
  lemma KeySortedIsInOrder<T(!new)>(cmp: (T, T) -> int, K: T -> Rank, ok: T -> bool, s: seq<T>)
    requires Respects(cmp, K, ok)
    requires forall a, b :: ok(a) && ok(b) && K(a) == K(b) ==> cmp(a, b) <= 0
    requires forall x :: x in s ==> ok(x)
    requires KeySorted(K, s)
    ensures InOrder(cmp, s)
  {
    forall i | 0 < i < |s|
      ensures cmp(s[i - 1], s[i]) <= 0
    {
      assert s[i - 1] in s && s[i] in s;
      CmpOfKeyOrderedPair(cmp, K, ok, s[i - 1], s[i]);
    }
  }

  /** A sequence whose neighbours are in key order is key-sorted. */
  lemma {:induction false} KeySortedOfNeighbours<T>(K: T -> Rank, s: seq<T>)
    requires forall i :: 0 < i < |s| ==> !Below(K(s[i]), K(s[i - 1]))
    ensures KeySorted(K, s)
    decreases |s|
  {
    if |s| > 1 {
      var n := |s| - 1;
      var s' := s[..n];
      KeySortedOfNeighbours(K, s');
      forall i, j | 0 <= i < j < |s|
        ensures !Below(K(s[j]), K(s[i]))
      {
        if j < n {
          assert s[i] == s'[i] && s[j] == s'[j];
        } else if i < n - 1 {
          assert s[i] == s'[i] && s[n - 1] == s'[n - 1];
          NotBelowTransitive(K(s[i]), K(s[n - 1]), K(s[n]));
        }
      }
    }
  }

  /** The last elements of two key-sorted arrangements of the same elements have equal keys. */
  lemma LastKeysAgree<T>(K: T -> Rank, r: seq<T>, e: seq<T>)
    requires KeySorted(K, r) && KeySorted(K, e)
    requires multiset(r) == multiset(e) && |e| > 0
    ensures |r| == |e| && K(r[|r| - 1]) == K(e[|e| - 1])
  {
    assert |r| == |multiset(r)| == |multiset(e)| == |e|;
    var n := |e| - 1;
    assert r[n] in multiset(e) && e[n] in multiset(r);
    var m :| 0 <= m < |e| && e[m] == r[n];
    var m' :| 0 <= m' < |r| && r[m'] == e[n];
    BelowIsStrictTotalOrder(K(r[n]), K(e[n]), K(e[n]));
  }

  /** Only elements satisfying `P` share a key with another position. */
  ghost predicate TiesOnlyAmong<T>(K: T -> Rank, P: T -> bool, e: seq<T>) {
    forall i, j :: 0 <= i < j < |e| && K(e[i]) == K(e[j]) ==> P(e[i]) && P(e[j])
  }

  /** The last element of a sequence ending in a `P` element ends its filter. */
  lemma FilterLast<T>(P: T -> bool, s: seq<T>)
    requires |s| > 0 && P(s[|s| - 1])
    ensures |Filter(P, s)| > 0 && Filter(P, s)[|Filter(P, s)| - 1] == s[|s| - 1]
  {
  }

  /** Last elements with equal keys are the same element, when only `P` elements share a key and the `P` elements agree. */
  lemma LastAgree<T>(K: T -> Rank, P: T -> bool, r: seq<T>, e: seq<T>)
    requires |r| == |e| > 0 && r[|r| - 1] in e
    requires K(r[|r| - 1]) == K(e[|e| - 1])
    requires TiesOnlyAmong(K, P, e)
    requires Filter(P, r) == Filter(P, e)
    ensures r[|r| - 1] == e[|e| - 1]
  {
    var n := |e| - 1;
    var m :| 0 <= m < |e| && e[m] == r[n];
    if m < n {
      assert P(r[n]) && P(e[n]);
      FilterLast(P, r);
      FilterLast(P, e);
    }
  }

  /** Removing one common last element keeps equal multisets equal. */
  lemma MultisetOfPrefixes<T>(r: seq<T>, e: seq<T>)
    requires multiset(r) == multiset(e) && |r| == |e| > 0 && r[|r| - 1] == e[|e| - 1]
    ensures multiset(r[..|r| - 1]) == multiset(e[..|e| - 1])
  {
    var n := |r| - 1;
    assert r == r[..n] + [r[n]] && e == e[..n] + [e[n]];
    var a, b := multiset(r[..n]), multiset(e[..n]);
    assert a + multiset{r[n]} == b + multiset{r[n]};
    assert forall z :: a[z] == (a + multiset{r[n]})[z] - (if z == r[n] then 1 else 0);
    assert forall z :: b[z] == (b + multiset{r[n]})[z] - (if z == r[n] then 1 else 0);
  }

  /** Removing one common last element keeps equal filters equal. */
  lemma FilterOfPrefixes<T>(P: T -> bool, r: seq<T>, e: seq<T>)
    requires Filter(P, r) == Filter(P, e) && |r| == |e| > 0 && r[|r| - 1] == e[|e| - 1]
    ensures Filter(P, r[..|r| - 1]) == Filter(P, e[..|e| - 1])
  {
    var n := |r| - 1;
    var fr, fe := Filter(P, r[..n]), Filter(P, e[..n]);
    var tail := if P(r[n]) then [r[n]] else [];
    assert Filter(P, r) == fr + tail && Filter(P, e) == fe + tail;
    assert |fr| == |fe|;
    assert fr == Filter(P, r)[..|fr|] && fe == Filter(P, e)[..|fe|];
  }

  lemma KeySortedPrefix<T>(K: T -> Rank, s: seq<T>, n: nat)
    requires KeySorted(K, s) && n <= |s|
    ensures KeySorted(K, s[..n])
  {
    forall i, j | 0 <= i < j < n ensures !Below(K(s[..n][j]), K(s[..n][i])) {
      assert s[..n][i] == s[i] && s[..n][j] == s[j];
    }
  }

  lemma TiesOnlyAmongPrefix<T>(K: T -> Rank, P: T -> bool, e: seq<T>, n: nat)
    requires TiesOnlyAmong(K, P, e) && n <= |e|
    ensures TiesOnlyAmong(K, P, e[..n])
  {
    forall i, j | 0 <= i < j < n && K(e[..n][i]) == K(e[..n][j])
      ensures P(e[..n][i]) && P(e[..n][j])
    {
      assert e[..n][i] == e[i] && e[..n][j] == e[j];
    }
  }

  /** Only the first `n + 1` elements may share a key when every later neighbour pair strictly increases. */
  lemma TiesOnlyAmongLeading<T>(K: T -> Rank, P: T -> bool, e: seq<T>, n: nat)
    requires KeySorted(K, e)
    requires forall i :: n < i < |e| ==> Below(K(e[i - 1]), K(e[i]))
    requires forall i :: 0 <= i <= n && i < |e| ==> P(e[i])
    ensures TiesOnlyAmong(K, P, e)
  {
    forall i, j | 0 <= i < j < |e| && n < j
      ensures Below(K(e[i]), K(e[j]))
    {
      BelowIsStrictTotalOrder(K(e[i]), K(e[j - 1]), K(e[j]));
    }
  }

  /** `r` and `e` are key-sorted arrangements of the same elements, tying only `P` elements, with the same `P` elements in the same order. */
  ghost predicate SameArrangement<T>(K: T -> Rank, P: T -> bool, r: seq<T>, e: seq<T>) {
    && KeySorted(K, r) && KeySorted(K, e)
    && multiset(r) == multiset(e)
    && TiesOnlyAmong(K, P, e)
    && Filter(P, r) == Filter(P, e)
  }

  /** Two such arrangements end in the same element, and what precedes it is again such a pair. */
  lemma SameArrangementOfPrefixes<T>(K: T -> Rank, P: T -> bool, r: seq<T>, e: seq<T>)
    requires SameArrangement(K, P, r, e) && |e| > 0
    ensures |r| == |e| && r[|r| - 1] == e[|e| - 1]
    ensures SameArrangement(K, P, r[..|r| - 1], e[..|e| - 1])
  {
    var n := |e| - 1;
    LastKeysAgree(K, r, e);
    assert r[n] in multiset(e);
    LastAgree(K, P, r, e);
    MultisetOfPrefixes(r, e);
    FilterOfPrefixes(P, r, e);
    KeySortedPrefix(K, r, n);
    KeySortedPrefix(K, e, n);
    TiesOnlyAmongPrefix(K, P, e, n);
  }

  /**
    Two key-sorted arrangements of the same elements are equal when only elements
    satisfying `P` share a key and both list the `P` elements in the same order.
   */
  lemma {:induction false} KeySortedUnique<T>(K: T -> Rank, P: T -> bool, r: seq<T>, e: seq<T>)
    requires SameArrangement(K, P, r, e)
    ensures r == e
    decreases |e|
  {
    if |e| == 0 {
      assert |r| == |multiset(r)| == |multiset(e)| == 0;
    } else {
      var n := |e| - 1;
      SameArrangementOfPrefixes(K, P, r, e);
      KeySortedUnique(K, P, r[..n], e[..n]);
      assert r == r[..n] + [r[n]] && e == e[..n] + [e[n]];
    }
  }

  /** Predicates that agree on every element of `s` select the same elements. */
  lemma {:induction false} FilterAgrees<T>(P: T -> bool, Q: T -> bool, s: seq<T>)
    requires forall i :: 0 <= i < |s| ==> P(s[i]) == Q(s[i])
    ensures Filter(P, s) == Filter(Q, s)
    decreases |s|
  {
    if |s| > 0 {
      FilterAgrees(P, Q, s[..|s| - 1]);
    }
  }

  /** The elements whose key is `v`. */
  function HasKey<T>(K: T -> Rank, v: Rank): T -> bool {
    x => K(x) == v
  }

  /** `r` and `e` are key-sorted arrangements of the same elements that list each key's elements in the same order. */
  ghost predicate StableArrangement<T>(K: T -> Rank, r: seq<T>, e: seq<T>) {
    && KeySorted(K, r) && KeySorted(K, e)
    && multiset(r) == multiset(e)
    && forall v :: Filter(HasKey(K, v), r) == Filter(HasKey(K, v), e)
  }

  /** Two such arrangements end in the same element: the last of its key in both. What precedes it is again such a pair. */
  lemma StableArrangementOfPrefixes<T>(K: T -> Rank, r: seq<T>, e: seq<T>)
    requires StableArrangement(K, r, e) && |e| > 0
    ensures |r| == |e| && r[|r| - 1] == e[|e| - 1]
    ensures StableArrangement(K, r[..|r| - 1], e[..|e| - 1])
  {
    var n := |e| - 1;
    LastKeysAgree(K, r, e);
    var last := HasKey(K, K(e[n]));
    FilterLast(last, r);
    FilterLast(last, e);
    assert Filter(last, r) == Filter(last, e);
    MultisetOfPrefixes(r, e);
    forall v
      ensures Filter(HasKey(K, v), r[..n]) == Filter(HasKey(K, v), e[..n])
    {
      FilterOfPrefixes(HasKey(K, v), r, e);
    }
    KeySortedPrefix(K, r, n);
    KeySortedPrefix(K, e, n);
  }

  /**
    A stable sort by a key has exactly one possible result: two key-sorted
    arrangements of the same elements that keep each key's elements in the same
    order are equal.
   */
  lemma {:induction false} StableKeySortedUnique<T>(K: T -> Rank, r: seq<T>, e: seq<T>)
    requires StableArrangement(K, r, e)
    ensures r == e
    decreases |e|
  {
    if |e| == 0 {
      assert |r| == |multiset(r)| == |multiset(e)| == 0;
    } else {
      var n := |e| - 1;
      StableArrangementOfPrefixes(K, r, e);
      StableKeySortedUnique(K, r[..n], e[..n]);
      assert r == r[..n] + [r[n]] && e == e[..n] + [e[n]];
    }
  }
}
