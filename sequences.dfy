/** Sequence facts shared by the catalog, the live/studio filter and the directory scanner. */
module Sequences {

  /** No element occurs twice. */
  predicate NoDuplicates<T(==)>(s: seq<T>) {
    forall i, j :: 0 <= i < j < |s| ==> s[i] != s[j]
  }

  /** `a` is `b` with some elements deleted and the rest kept in their order
      (greedy leftmost matching, which decides the relation exactly). */
  predicate Subsequence<T(==)>(a: seq<T>, b: seq<T>)
    decreases |b|
  {
    if a == [] then true
    else if b == [] then false
    else if a[0] == b[0] then Subsequence(a[1..], b[1..])
    else Subsequence(a, b[1..])
  }

  /** `Iterator::filter(..).collect()`: the elements of `s` that satisfy `keep`, in order. */
  function Filter<T(==, !new)>(s: seq<T>, keep: T -> bool): (r: seq<T>)
    ensures |r| <= |s|
    ensures forall x :: x in r <==> x in s && keep(x)
    ensures forall x :: keep(x) ==> multiset(r)[x] == multiset(s)[x]
    ensures forall x :: !keep(x) ==> multiset(r)[x] == 0
    ensures Subsequence(r, s)
  {
    if s == [] then []
    else
      var rest := Filter(s[1..], keep);
      SplitAround(s, 0);
      assert s[..0] == [];
      if keep(s[0]) then [s[0]] + rest
      else
        assert rest != [] ==> rest[0] in rest && keep(rest[0]) && rest[0] != s[0];
        rest
  }

  /** Filtering with a test every element passes keeps the whole sequence. */
  lemma {:induction false} FilterAll<T(!new)>(s: seq<T>, keep: T -> bool)
    requires forall x :: x in s ==> keep(x)
    ensures Filter(s, keep) == s
  {
    if s != [] {
      SplitAround(s, 0);
      assert s[..0] == [];
      forall x | x in s[1..] ensures keep(x) {
        assert x in s;
      }
      FilterAll(s[1..], keep);
    }
  }

  /** A sequence without duplicates has exactly as many elements as the set of its elements. */
  lemma {:induction false} NoDuplicatesCardinality<T>(s: seq<T>)
    requires NoDuplicates(s)
    ensures |set x | x in s| == |s|
  {
    if s != [] {
      NoDuplicatesCardinality(s[1..]);
      assert (set x | x in s) == (set x | x in s[1..]) + {s[0]};
    }
  }

  /** In a sequence without duplicates every element occurs at most once. */
  lemma {:induction false} NoDuplicatesCount<T>(s: seq<T>, x: T)
    requires NoDuplicates(s)
    ensures multiset(s)[x] <= 1
  {
    if s != [] {
      assert s == [s[0]] + s[1..];
      NoDuplicatesCount(s[1..], x);
      if s[0] == x {
        assert x !in s[1..];
      }
    }
  }

  /** A sequence in which every element occurs at most once has no duplicates. */
  lemma CountAtMostOneNoDuplicates<T>(s: seq<T>)
    requires forall x :: multiset(s)[x] <= 1
    ensures NoDuplicates(s)
  {
    forall i, j | 0 <= i < j < |s|
      ensures s[i] != s[j]
    {
      assert s == s[..i] + [s[i]] + s[i + 1..j] + [s[j]] + s[j + 1..];
      assert multiset(s)[s[i]] >= multiset([s[i]] + s[i + 1..j] + [s[j]])[s[i]];
    }
  }

  /** `Iterator::map(..).collect()`: `f` applied to each element, in order. */
  function MapSeq<A, B>(s: seq<A>, f: A -> B): (r: seq<B>)
    ensures |r| == |s|
    ensures forall i :: 0 <= i < |s| ==> r[i] == f(s[i])
  {
    if s == [] then [] else [f(s[0])] + MapSeq(s[1..], f)
  }

  lemma MapSeqAppend<A, B>(a: seq<A>, b: seq<A>, f: A -> B)
    ensures MapSeq(a + b, f) == MapSeq(a, f) + MapSeq(b, f)
  {
    assert forall i :: 0 <= i < |a + b| ==> MapSeq(a + b, f)[i] == (MapSeq(a, f) + MapSeq(b, f))[i];
  }

  /** A sequence is what precedes position `i`, the element there, and what follows. */
  lemma SplitAround<T>(s: seq<T>, i: nat)
    requires i < |s|
    ensures s == s[..i] + [s[i]] + s[i + 1..]
  {
  }

  /** Taking one element out of a sequence takes it out of its multiset. */
  lemma RemoveAt<T>(s: seq<T>, i: nat)
    requires i < |s|
    ensures multiset(s[..i] + s[i + 1..]) == multiset(s) - multiset{s[i]}
  {
    assert s == s[..i] + [s[i]] + s[i + 1..];
  }

  /** The same, stated as a sum. */
  lemma RemoveAtSum<T>(s: seq<T>, i: nat)
    requires i < |s|
    ensures multiset(s) == multiset(s[..i] + s[i + 1..]) + multiset{s[i]}
  {
    assert s == s[..i] + [s[i]] + s[i + 1..];
  }

  lemma MapSeqSingleton<A, B>(x: A, f: A -> B)
    ensures MapSeq([x], f) == [f(x)]
  {
    assert [x][1..] == [];
  }

  /** Mapping a sequence with one element singled out. */
  lemma MapSeqMiddle<A, B>(a: seq<A>, x: A, b: seq<A>, f: A -> B)
    ensures MapSeq(a + [x] + b, f) == MapSeq(a, f) + [f(x)] + MapSeq(b, f)
  {
    MapSeqAppend(a + [x], b, f);
    MapSeqAppend(a, [x], f);
    MapSeqSingleton(x, f);
  }

  /** An element in the middle of a sequence adds one copy to its multiset. */
  lemma MultisetMiddle<T>(p: seq<T>, y: T, q: seq<T>)
    ensures multiset(p + [y] + q) == multiset(p + q) + multiset{y}
  {
  }

  /** Mapping a sequence without its middle element loses one copy of that element's image. */
  lemma MapSeqRemoveMiddle<A, B>(a: seq<A>, x: A, b: seq<A>, f: A -> B)
    ensures multiset(MapSeq(a + [x] + b, f)) == multiset(MapSeq(a + b, f)) + multiset{f(x)}
  {
    MapSeqMiddle(a, x, b, f);
    MapSeqAppend(a, b, f);
    MultisetMiddle(MapSeq(a, f), f(x), MapSeq(b, f));
  }

  /** Taking one element out before mapping takes its image out of the mapped multiset. */
  lemma MapSeqRemoveAt<A, B>(s: seq<A>, i: nat, f: A -> B)
    requires i < |s|
    ensures multiset(MapSeq(s, f)) == multiset(MapSeq(s[..i] + s[i + 1..], f)) + multiset{f(s[i])}
  {
    SplitAround(s, i);
    MapSeqRemoveMiddle(s[..i], s[i], s[i + 1..], f);
  }

  /** The position of the first occurrence of `x` in `s`. */
  function IndexOf<T(==)>(s: seq<T>, x: T): (i: nat)
    requires x in s
    ensures i < |s| && s[i] == x
    ensures forall j :: 0 <= j < i ==> s[j] != x
  {
    if s[0] == x then 0 else 1 + IndexOf(s[1..], x)
  }

  /** Two permutations stay permutations when the head of one is taken out of the other. */
  lemma PermutationTail<T>(s1: seq<T>, s2: seq<T>, i: nat)
    requires s1 != [] && i < |s2| && s2[i] == s1[0]
    requires multiset(s1) == multiset(s2)
    ensures multiset(s1[1..]) == multiset(s2[..i] + s2[i + 1..])
  {
    RemoveAt(s2, i);
    RemoveAt(s1, 0);
    assert s1[..0] + s1[1..] == s1[1..];
  }

  /** Mapping preserves being a permutation. */
  lemma {:induction false} MapSeqPermutation<A, B>(s1: seq<A>, s2: seq<A>, f: A -> B)
    requires multiset(s1) == multiset(s2)
    ensures multiset(MapSeq(s1, f)) == multiset(MapSeq(s2, f))
    decreases |s1|
  {
    if s1 == [] {
      assert |multiset(s2)| == 0;
    } else {
      assert s1[0] in multiset(s2);
      var i := IndexOf(s2, s1[0]);
      PermutationTail(s1, s2, i);
      MapSeqPermutation(s1[1..], s2[..i] + s2[i + 1..], f);
      MapSeqRemoveAt(s2, i, f);
      MapSeqRemoveAt(s1, 0, f);
      assert s1[..0] + s1[1..] == s1[1..];
    }
  }

  /** Taking one element out of a sequence without duplicates leaves exactly the other elements. */
  lemma NoDuplicatesRemoveAt<T>(s: seq<T>, i: nat)
    requires NoDuplicates(s) && i < |s|
    ensures NoDuplicates(s[..i] + s[i + 1..])
    ensures forall y :: y in s[..i] + s[i + 1..] <==> y in s && y != s[i]
  {
    var rest := s[..i] + s[i + 1..];
    assert forall j :: 0 <= j < |rest| ==> rest[j] == s[if j < i then j else j + 1];
    forall y | y in s && y != s[i]
      ensures y in rest
    {
      var k :| 0 <= k < |s| && s[k] == y;
      assert rest[if k < i then k else k - 1] == y;
    }
  }

  /** The empty sequence is the only one with no elements. */
  lemma NoElementsEmpty<T>(s: seq<T>)
    requires forall y :: y !in s
    ensures s == []
  {
    if s != [] {
      NonEmptyHasElement(s);
    }
  }

  lemma NonEmptyHasElement<T>(s: seq<T>)
    requires s != []
    ensures exists y :: y in s
  {
    assert s[0] in s;
  }

  /** Two duplicate-free sequences of the same elements are permutations of each other. */
  lemma {:induction false} SameElementsPermutation<T>(s1: seq<T>, s2: seq<T>)
    requires NoDuplicates(s1) && NoDuplicates(s2)
    requires forall x :: x in s1 <==> x in s2
    ensures multiset(s1) == multiset(s2)
    decreases |s1|
  {
    if s1 == [] {
      NoElementsEmpty(s2);
    } else {
      var x := s1[0];
      var i := IndexOf(s2, x);
      var rest2 := s2[..i] + s2[i + 1..];
      NoDuplicatesRemoveAt(s1, 0);
      NoDuplicatesRemoveAt(s2, i);
      assert s1[..0] + s1[1..] == s1[1..];
      forall y
        ensures y in s1[1..] <==> y in rest2
      {
        assert y in s1[1..] <==> y in s1 && y != x;
        assert y in rest2 <==> y in s2 && y != x;
      }
      SameElementsPermutation(s1[1..], rest2);
      RemoveAtSum(s2, i);
      assert s1 == [x] + s1[1..];
      assert multiset(s1) == multiset(s1[1..]) + multiset{x};
    }
  }
}
