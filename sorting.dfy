/** Comparator-driven sorting, as Rust's `sort`, `sort_by` and
    `par_sort_unstable_by` do it: the comparator decides, and the result is
    ascending with respect to it. */
module Sorting {

  /** Rust's `std::cmp::Ordering`. */
  datatype Ordering = Less | Equal | Greater

  /** `x` may stand before `y` in a sequence sorted by `cmp`. */
  predicate Precedes<T>(cmp: (T, T) -> Ordering, x: T, y: T) {
    cmp(x, y) != Greater
  }

  /** What Rust requires of a comparator handed to a sort: the answers for
      `(x, y)` and `(y, x)` agree, and "not greater" is transitive. */
  ghost predicate IsTotalOrder<T(!new)>(cmp: (T, T) -> Ordering) {
    && (forall x, y :: cmp(x, y) == Greater <==> cmp(y, x) == Less)
    && (forall x, y, z :: Precedes(cmp, x, y) && Precedes(cmp, y, z) ==> Precedes(cmp, x, z))
  }

  ghost predicate SortedBy<T>(s: seq<T>, cmp: (T, T) -> Ordering) {
    forall i, j :: 0 <= i < j < |s| ==> Precedes(cmp, s[i], s[j])
  }

  /** Sorts `a` in place so that no element compares `Greater` than one after
      it. Nothing is promised about the order of elements that compare
      `Equal`: the sort may be unstable. */
  method SortBy<T(!new)>(a: array<T>, cmp: (T, T) -> Ordering)
    requires IsTotalOrder(cmp)
    modifies a
    ensures SortedBy(a[..], cmp)
    ensures multiset(a[..]) == old(multiset(a[..]))
  {
    var i := 0;
    while i < a.Length
      invariant 0 <= i <= a.Length
      invariant forall k, l :: 0 <= k < l < i ==> Precedes(cmp, a[k], a[l])
      invariant multiset(a[..]) == old(multiset(a[..]))
    {
      InsertBackward(a, i, cmp);
      i := i + 1;
    }
  }

  /** One step of insertion sort: given `a[..i]` sorted, moves `a[i]` down
      until the element before it does not compare `Greater`, leaving
      `a[..i + 1]` sorted. */
  method InsertBackward<T(!new)>(a: array<T>, i: nat, cmp: (T, T) -> Ordering)
    requires IsTotalOrder(cmp)
    requires i < a.Length
    requires forall k, l :: 0 <= k < l < i ==> Precedes(cmp, a[k], a[l])
    modifies a
    ensures forall k, l :: 0 <= k < l <= i ==> Precedes(cmp, a[k], a[l])
    ensures multiset(a[..]) == old(multiset(a[..]))
  {
    var j := i;
    while 0 < j && cmp(a[j - 1], a[j]) == Greater
      invariant 0 <= j <= i
      invariant forall k, l :: 0 <= k < l < j ==> Precedes(cmp, a[k], a[l])
      invariant forall k, l :: 0 <= k < j < l <= i ==> Precedes(cmp, a[k], a[l])
      invariant forall l :: j < l <= i ==> Precedes(cmp, a[j], a[l])
      invariant forall k, l :: j < k < l <= i ==> Precedes(cmp, a[k], a[l])
      invariant multiset(a[..]) == old(multiset(a[..]))
    {
      Swap(a, j - 1, j);
      j := j - 1;
    }
    // a[j] stopped behind an element that precedes it; by transitivity so
    // does every element before that one.
    forall k | 0 <= k < j
      ensures Precedes(cmp, a[k], a[j])
    {
      if k < j - 1 {
        assert Precedes(cmp, a[k], a[j - 1]) && Precedes(cmp, a[j - 1], a[j]);
      }
    }
  }

  method Swap<T>(a: array<T>, i: nat, j: nat)
    requires i < a.Length && j < a.Length
    modifies a
    ensures a[i] == old(a[j]) && a[j] == old(a[i])
    ensures forall m :: 0 <= m < a.Length && m != i && m != j ==> a[m] == old(a[m])
    ensures multiset(a[..]) == old(multiset(a[..]))
  {
    a[i], a[j] := a[j], a[i];
  }

  /** The first element of a sorted sequence precedes every element of it. */
  lemma SortedHeadPrecedes<T(!new)>(s: seq<T>, cmp: (T, T) -> Ordering, k: nat)
    requires IsTotalOrder(cmp) && SortedBy(s, cmp)
    requires k < |s|
    ensures Precedes(cmp, s[0], s[k])
  {
  }

  /** Two sorted permutations of one multiset start with elements that
      compare `Equal`. */
  lemma SortedHeadsEqual<T(!new)>(a: seq<T>, b: seq<T>, cmp: (T, T) -> Ordering)
    requires IsTotalOrder(cmp)
    requires SortedBy(a, cmp) && SortedBy(b, cmp)
    requires multiset(a) == multiset(b) && a != []
    ensures b != [] && cmp(a[0], b[0]) == Equal
  {
    assert |a| == |multiset(a)| == |multiset(b)| == |b|;
    assert a[0] in multiset(b);
    var k :| 0 <= k < |b| && b[k] == a[0];
    SortedHeadPrecedes(b, cmp, k);
    assert b[0] in multiset(a);
    var m :| 0 <= m < |a| && a[m] == b[0];
    SortedHeadPrecedes(a, cmp, m);
  }

  lemma SortedTail<T>(s: seq<T>, cmp: (T, T) -> Ordering)
    requires s != [] && SortedBy(s, cmp)
    ensures SortedBy(s[1..], cmp)
  {
    forall i, j | 0 <= i < j < |s| - 1
      ensures Precedes(cmp, s[1..][i], s[1..][j])
    {
      assert s[1..][i] == s[i + 1] && s[1..][j] == s[j + 1];
    }
  }

  lemma SameHeadSameTails<T>(a: seq<T>, b: seq<T>)
    requires a != [] && b != [] && a[0] == b[0]
    requires multiset(a) == multiset(b)
    ensures multiset(a[1..]) == multiset(b[1..])
  {
    assert a == [a[0]] + a[1..] && b == [b[0]] + b[1..];
    assert multiset(a) == multiset{a[0]} + multiset(a[1..]);
    assert multiset(b) == multiset{b[0]} + multiset(b[1..]);
    assert multiset(a[1..]) == multiset(a) - multiset{a[0]};
    assert multiset(b[1..]) == multiset(b) - multiset{b[0]};
  }

  /** With a comparator that calls only equal values `Equal`, a sorted
      permutation is unique: any two agree element by element. */
  lemma {:induction false} SortedUnique<T(!new)>(a: seq<T>, b: seq<T>, cmp: (T, T) -> Ordering)
    requires IsTotalOrder(cmp)
    requires forall x, y :: cmp(x, y) == Equal ==> x == y
    requires SortedBy(a, cmp) && SortedBy(b, cmp)
    requires multiset(a) == multiset(b)
    ensures a == b
  {
    assert |a| == |multiset(a)| == |multiset(b)| == |b|;
    if a != [] {
      assert a[0] == b[0] by {
        SortedHeadsEqual(a, b, cmp);
      }
      SortedTail(a, cmp);
      SortedTail(b, cmp);
      SameHeadSameTails(a, b);
      SortedUnique(a[1..], b[1..], cmp);
      assert a == [a[0]] + a[1..];
    }
  }

  /** `s` without its element at index `k`. */
  function RemoveAt<T>(s: seq<T>, k: nat): (r: seq<T>)
    requires k < |s|
    ensures |r| == |s| - 1
    ensures forall i :: 0 <= i < |r| ==> r[i] == if i < k then s[i] else s[i + 1]
    ensures multiset(r) == multiset(s) - multiset{s[k]}
  {
    assert s == s[..k] + [s[k]] + s[k + 1..];
    s[..k] + s[k + 1..]
  }

  /** One case of `RemoveAt`'s ensures, for a single index: calling it
      gives a proof that fact directly, without the solver instantiating
      the whole quantifier. */
  lemma RemoveAtIndex<T>(s: seq<T>, k: nat, i: nat)
    requires k < |s| && i < |s| - 1
    ensures RemoveAt(s, k)[i] == if i < k then s[i] else s[i + 1]
  {
  }

  lemma RemoveAtSorted<T>(s: seq<T>, k: nat, cmp: (T, T) -> Ordering)
    requires k < |s| && SortedBy(s, cmp)
    ensures SortedBy(RemoveAt(s, k), cmp)
  {
    var r := RemoveAt(s, k);
    forall i, j | 0 <= i < j < |r|
      ensures Precedes(cmp, r[i], r[j])
    {
      var si := if i < k then i else i + 1;
      var sj := if j < k then j else j + 1;
      assert r[i] == s[si] && r[j] == s[sj];
    }
  }
}
