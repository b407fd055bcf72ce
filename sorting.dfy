/** `Array.prototype.sort` with a comparator, as the related-terms and the
    study code call it: an in-place sort of an array by a total preorder.
    `le(x, y)` stands for `compare(x, y) <= 0`. */
module Sorting {

  /** Any two elements are comparable. */
  ghost predicate Total<T(!new)>(le: (T, T) -> bool) {
    forall x, y :: le(x, y) || le(y, x)
  }

  ghost predicate Transitive<T(!new)>(le: (T, T) -> bool) {
    forall x, y, z :: le(x, y) && le(y, z) ==> le(x, z)
  }

  /** Every element may precede every later one. */
  predicate SortedBy<T>(s: seq<T>, le: (T, T) -> bool) {
    forall i, j :: 0 <= i < j < |s| ==> le(s[i], s[j])
  }

  /** Sorts `a` in place by `le` (insertion sort). */
  method SortInPlace<T(!new)>(a: array<T>, le: (T, T) -> bool)
    requires Total(le) && Transitive(le)
    modifies a
    ensures SortedBy(a[..], le)
    ensures multiset(a[..]) == multiset(old(a[..]))
  {
    for i := 0 to a.Length
      invariant SortedBy(a[..i], le)
      invariant multiset(a[..]) == multiset(old(a[..]))
    {
      InsertLast(a, i, le);
    }
    assert a[..a.Length] == a[..];
  }

  /** Moves `a[i]` down into the sorted prefix `a[..i]`, past every element
      it must precede. */
  method InsertLast<T(!new)>(a: array<T>, i: nat, le: (T, T) -> bool)
    requires i < a.Length && Total(le) && Transitive(le) && SortedBy(a[..i], le)
    modifies a
    ensures SortedBy(a[..i + 1], le)
    ensures multiset(a[..]) == multiset(old(a[..]))
  {
    var j := i;
    InsertStart(a[..], i, le);
    while j > 0 && !le(a[j - 1], a[j])
      invariant 0 <= j <= i
      invariant multiset(a[..]) == multiset(old(a[..]))
      invariant Inserting(a[..], i, j, le)
    {
      ghost var s := a[..];
      a[j - 1], a[j] := a[j], a[j - 1];
      assert a[..] == s[j - 1 := s[j]][j := s[j - 1]];
      SwapKeepsMultiset(s, j);
      InsertStep(s, i, j, le);
      j := j - 1;
    }
    InsertDone(a[..], i, j, le);
  }

  /** Midway through `InsertLast`: the element being inserted is at `j`,
      the others of `s[..i + 1]` are in order, and the inserted element may
      precede everything after it. */
  ghost predicate Inserting<T>(s: seq<T>, i: nat, j: nat, le: (T, T) -> bool)
    requires j <= i < |s|
  {
    && (forall x, y :: 0 <= x < y <= i && x != j && y != j ==> le(s[x], s[y]))
    && (forall y :: j < y <= i ==> le(s[j], s[y]))
  }

  lemma InsertStart<T>(s: seq<T>, i: nat, le: (T, T) -> bool)
    requires i < |s| && SortedBy(s[..i], le)
    ensures Inserting(s, i, i, le)
  {
    assert forall x :: 0 <= x < i ==> s[..i][x] == s[x];
  }

  /** Exchanging two neighbours keeps the elements. */
  lemma SwapKeepsMultiset<T>(s: seq<T>, j: nat)
    requires 0 < j < |s|
    ensures multiset(s[j - 1 := s[j]][j := s[j - 1]]) == multiset(s)
  {
  }

  /** Swapping the inserted element with a predecessor it must precede. */
  lemma InsertStep<T(!new)>(s: seq<T>, i: nat, j: nat, le: (T, T) -> bool)
    requires 0 < j <= i < |s| && Total(le) && Inserting(s, i, j, le) && !le(s[j - 1], s[j])
    ensures Inserting(s[j - 1 := s[j]][j := s[j - 1]], i, j - 1, le)
  {
  }

  /** The inserted element has come to rest after a predecessor it may
      follow. */
  lemma InsertDone<T(!new)>(s: seq<T>, i: nat, j: nat, le: (T, T) -> bool)
    requires j <= i < |s| && Transitive(le) && Inserting(s, i, j, le)
    requires j == 0 || le(s[j - 1], s[j])
    ensures SortedBy(s[..i + 1], le)
  {
    forall x, y | 0 <= x < y <= i
      ensures le(s[x], s[y])
    {
      if y == j && x < j - 1 {
        assert le(s[x], s[j - 1]);
      }
    }
  }

  /** `s.map(f)`. */
  function Map<T, U>(f: T -> U, s: seq<T>): (r: seq<U>)
    ensures |r| == |s| && forall i :: 0 <= i < |s| ==> r[i] == f(s[i])
  {
    seq(|s|, i requires 0 <= i < |s| => f(s[i]))
  }

  lemma MapConcat<T, U>(f: T -> U, a: seq<T>, b: seq<T>)
    ensures Map(f, a + b) == Map(f, a) + Map(f, b)
  {
  }

  /** Mapping two permutations of each other gives two permutations of each
      other. */
  lemma {:induction false} MapPermutation<T, U>(f: T -> U, ranked: seq<T>, items: seq<T>)
    requires multiset(ranked) == multiset(items)
    ensures multiset(Map(f, ranked)) == multiset(Map(f, items))
    decreases |ranked|
  {
    if ranked != [] {
      var x := ranked[0];
      var k := IndexOf(x, items);
      var before, after := items[..k], items[k + 1..];
      RemoveOne(ranked, items, k);
      MapPermutation(f, ranked[1..], before + after);
      MapRemoveFirst(f, ranked);
      MapRemove(f, items, k);
    } else {
      assert |items| == |multiset(items)| == 0;
    }
  }

  lemma MapRemoveFirst<T, U>(f: T -> U, s: seq<T>)
    requires s != []
    ensures multiset(Map(f, s)) == multiset{f(s[0])} + multiset(Map(f, s[1..]))
  {
    assert s == [s[0]] + s[1..];
    MapConcat(f, [s[0]], s[1..]);
    assert Map(f, [s[0]]) == [f(s[0])];
  }

  /** Mapping counts the image of one element plus the images of the rest. */
  lemma MapRemove<T, U>(f: T -> U, s: seq<T>, k: int)
    requires 0 <= k < |s|
    ensures multiset(Map(f, s)) == multiset{f(s[k])} + multiset(Map(f, s[..k] + s[k + 1..]))
  {
    var before, after := s[..k], s[k + 1..];
    assert s == before + [s[k]] + after;
    MapConcat(f, before + [s[k]], after);
    MapConcat(f, before, [s[k]]);
    MapConcat(f, before, after);
    assert Map(f, [s[k]]) == [f(s[k])];
  }

  /** A position at which an element of `items` occurs. */
  lemma IndexOf<T>(x: T, items: seq<T>) returns (k: int)
    requires x in multiset(items)
    ensures 0 <= k < |items| && items[k] == x
  {
    assert x in items;
    k :| 0 <= k < |items| && items[k] == x;
  }

  /** Taking the first element off one of two equal multisets and its match
      off the other leaves equal multisets. */
  lemma RemoveOne<T>(ranked: seq<T>, items: seq<T>, k: int)
    requires multiset(ranked) == multiset(items) && ranked != []
    requires 0 <= k < |items| && items[k] == ranked[0]
    ensures multiset(ranked[1..]) == multiset(items[..k] + items[k + 1..])
  {
    assert ranked == [ranked[0]] + ranked[1..];
    assert items == items[..k] + [items[k]] + items[k + 1..];
    assert multiset(ranked[1..]) == multiset(ranked) - multiset{ranked[0]};
    assert multiset(items[..k] + items[k + 1..]) == multiset(items) - multiset{items[k]};
  }
}
