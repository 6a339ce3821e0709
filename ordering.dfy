/** The orders the catalog listing uses and the sort it applies them with. The listing calls
    the standard library's stable sorts (`slice::sort`, `slice::sort_by`); they are modelled
    here by one stable insertion sort, which produces the same output as any stable sort
    under the same comparison. */
module Ordering {

  /** `le(a, b)`: `a` may stand before `b`. A total preorder: any two elements compare, and
      comparison chains. Elements with `le` both ways are "equivalent". */
  ghost predicate TotalPreorder<T(!new)>(le: (T, T) -> bool) {
    && (forall a, b :: le(a, b) || le(b, a))
    && (forall a, b, c :: le(a, b) && le(b, c) ==> le(a, c))
  }

  /** Only equal elements are equivalent. */
  ghost predicate Antisymmetric<T(!new)>(le: (T, T) -> bool) {
    forall a, b :: le(a, b) && le(b, a) ==> a == b
  }

  predicate SortedBy<T>(s: seq<T>, le: (T, T) -> bool) {
    forall i, j :: 0 <= i < j < |s| ==> le(s[i], s[j])
  }

  /** In a sorted sequence the first element may stand before every later one. */
  lemma SortedHeadFirst<T>(s: seq<T>, y: T, le: (T, T) -> bool)
    requires SortedBy(s, le) && s != []
    requires y in multiset(s[1..])
    ensures le(s[0], y)
  {
    var k :| 0 <= k < |s[1..]| && s[1..][k] == y;
    assert s[k + 1] == y;
  }

  /** Putting the head of a sorted `s` back in front of its sorted tail with `x` inserted
      keeps the order, when `x` may not stand before that head. */
  lemma InsertAfterHead<T(!new)>(x: T, s: seq<T>, rest: seq<T>, le: (T, T) -> bool)
    requires TotalPreorder(le) && SortedBy(s, le) && s != [] && !le(x, s[0])
    requires SortedBy(rest, le) && multiset(rest) == multiset(s[1..]) + multiset{x}
    ensures SortedBy([s[0]] + rest, le)
  {
    forall j | 0 <= j < |rest| ensures le(s[0], rest[j]) {
      assert rest[j] in multiset(rest);
      if rest[j] != x {
        SortedHeadFirst(s, rest[j], le);
      }
    }
  }

  /** Inserts `x` into the sorted `s` just before the first element it may stand before,
      so `x` ends up ahead of every element equivalent to it. */
  function InsertBy<T(==, !new)>(x: T, s: seq<T>, le: (T, T) -> bool): (r: seq<T>)
    requires TotalPreorder(le) && SortedBy(s, le)
    ensures |r| == |s| + 1
    ensures multiset(r) == multiset(s) + multiset{x}
    ensures SortedBy(r, le)
  {
    if s == [] || le(x, s[0]) then
      [x] + s
    else
      var rest := InsertBy(x, s[1..], le);
      HeadAndTail(s);
      InsertAfterHead(x, s, rest, le);
      [s[0]] + rest
  }

  /** A stable sort of `s` by `le`. */
  function SortBy<T(==, !new)>(s: seq<T>, le: (T, T) -> bool): (r: seq<T>)
    requires TotalPreorder(le)
    ensures |r| == |s|
    ensures multiset(r) == multiset(s)
    ensures SortedBy(r, le)
  {
    if s == [] then []
    else
      assert s == [s[0]] + s[1..];
      InsertBy(s[0], SortBy(s[1..], le), le)
  }

  /** The elements of `s` equivalent to `y` under `le`, in order. */
  function EquivalentTo<T>(s: seq<T>, y: T, le: (T, T) -> bool): seq<T> {
    if s == [] then []
    else if le(s[0], y) && le(y, s[0]) then [s[0]] + EquivalentTo(s[1..], y, le)
    else EquivalentTo(s[1..], y, le)
  }

  lemma {:induction false} InsertByEquivalent<T(!new)>(x: T, s: seq<T>, y: T, le: (T, T) -> bool)
    requires TotalPreorder(le) && SortedBy(s, le)
    ensures EquivalentTo(InsertBy(x, s, le), y, le)
         == (if le(x, y) && le(y, x) then [x] else []) + EquivalentTo(s, y, le)
    decreases |s|
  {
    if s != [] && !le(x, s[0]) {
      InsertByEquivalent(x, s[1..], y, le);
    }
  }

  /** Stability: the elements equivalent to any `y` keep their input order. */
  lemma {:induction false} SortByStable<T(!new)>(s: seq<T>, y: T, le: (T, T) -> bool)
    requires TotalPreorder(le)
    ensures EquivalentTo(SortBy(s, le), y, le) == EquivalentTo(s, y, le)
    decreases |s|
  {
    if s != [] {
      SortByStable(s[1..], y, le);
      InsertByEquivalent(s[0], SortBy(s[1..], le), y, le);
    }
  }

  lemma HeadAndTail<T>(s: seq<T>)
    requires s != []
    ensures s == [s[0]] + s[1..]
    ensures multiset(s) == multiset{s[0]} + multiset(s[1..])
  {
    assert s == [s[0]] + s[1..];
  }

  /** The first element of a sorted sequence may stand before any of its elements. */
  lemma SortedHeadLeast<T(!new)>(s: seq<T>, y: T, le: (T, T) -> bool)
    requires TotalPreorder(le) && SortedBy(s, le) && s != []
    requires y in multiset(s)
    ensures le(s[0], y)
  {
    HeadAndTail(s);
    if y != s[0] { SortedHeadFirst(s, y, le); }
  }

  /** Under an antisymmetric order there is only one sorted arrangement of given elements,
      so the result does not depend on the order the input arrived in. */
  lemma {:induction false} SortedUnique<T(!new)>(a: seq<T>, b: seq<T>, le: (T, T) -> bool)
    requires TotalPreorder(le) && Antisymmetric(le)
    requires SortedBy(a, le) && SortedBy(b, le)
    requires multiset(a) == multiset(b)
    ensures a == b
    decreases |a|
  {
    if a == [] {
      assert |multiset(b)| == 0;
    } else {
      assert b != [] by { assert |multiset(b)| == |multiset(a)|; }
      HeadAndTail(a);
      HeadAndTail(b);
      SortedHeadLeast(a, b[0], le);
      SortedHeadLeast(b, a[0], le);
      assert a[0] == b[0];
      assert multiset(a[1..]) == multiset(a) - multiset{a[0]};
      assert multiset(b[1..]) == multiset(b) - multiset{b[0]};
      SortedUnique(a[1..], b[1..], le);
    }
  }

  /** `a <= b` in the lexicographic order of `str`: character by character, which for UTF-8
      text agrees with the byte order Rust compares in. */
  predicate LexLe(a: string, b: string)
    decreases |a|
  {
    a == [] || (b != [] && (a[0] < b[0] || (a[0] == b[0] && LexLe(a[1..], b[1..]))))
  }

  /** The reversed comparison `b.cmp(a)` of the descending sort. */
  predicate LexGe(a: string, b: string) {
    LexLe(b, a)
  }

  lemma {:induction false} LexLeTotal(a: string, b: string)
    ensures LexLe(a, b) || LexLe(b, a)
    decreases |a|
  {
    if a != [] && b != [] && a[0] == b[0] { LexLeTotal(a[1..], b[1..]); }
  }

  lemma {:induction false} LexLeAntisymmetric(a: string, b: string)
    requires LexLe(a, b) && LexLe(b, a)
    ensures a == b
    decreases |a|
  {
    if a != [] && b != [] {
      LexLeAntisymmetric(a[1..], b[1..]);
      assert a == [a[0]] + a[1..] && b == [b[0]] + b[1..];
    }
  }

  lemma {:induction false} LexLeTransitive(a: string, b: string, c: string)
    requires LexLe(a, b) && LexLe(b, c)
    ensures LexLe(a, c)
    decreases |a|
  {
    if a != [] && b != [] && c != [] && a[0] == b[0] && b[0] == c[0] {
      LexLeTransitive(a[1..], b[1..], c[1..]);
    }
  }

  /** Both string orders the listing sorts by are antisymmetric total preorders. */
  lemma LexOrders()
    ensures TotalPreorder(LexLe) && Antisymmetric(LexLe)
    ensures TotalPreorder(LexGe) && Antisymmetric(LexGe)
  {
    forall a, b ensures LexLe(a, b) || LexLe(b, a) { LexLeTotal(a, b); }
    forall a, b | LexLe(a, b) && LexLe(b, a) ensures a == b { LexLeAntisymmetric(a, b); }
    forall a, b, c | LexLe(a, b) && LexLe(b, c) ensures LexLe(a, c) { LexLeTransitive(a, b, c); }
    forall a, b, c | LexGe(a, b) && LexGe(b, c) ensures LexGe(a, c) { LexLeTransitive(c, b, a); }
  }

  /** "Newer or the same age": compares by `key`, largest first. */
  function NewerFirst<T(!new)>(key: T -> int): (le: (T, T) -> bool)
    ensures TotalPreorder(le)
    ensures forall a, b :: le(a, b) <==> key(a) >= key(b)
  {
    (a, b) => key(a) >= key(b)
  }
}
