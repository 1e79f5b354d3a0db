/** List nodes, and what it means to sort a sequence of them stably. */
module StableSort {

  /** A node of the intrusive containers; its data and hash are fixed, its links are rewritten in place. */
  class Node {
    var next: Node?
    var prev: Node?
    const data: int
    const index: nat

    constructor (data: int, index: nat)
      ensures this.data == data && this.index == index
    {
      this.data, this.index := data, index;
    }
  }

  type Compare = (int, int) -> int

  /** A comparison that is a total preorder: consistent in both directions and transitive. */
  ghost predicate TotalPreorder(cmp: Compare) {
    && (forall a, b :: cmp(a, b) <= 0 <==> cmp(b, a) >= 0)
    && (forall a, b, c :: cmp(a, b) <= 0 && cmp(b, c) <= 0 ==> cmp(a, c) <= 0)
  }

  lemma Flip(cmp: Compare, a: int, b: int)
    requires TotalPreorder(cmp)
    ensures cmp(a, b) <= 0 <==> cmp(b, a) >= 0
    ensures cmp(a, b) >= 0 <==> cmp(b, a) <= 0
    ensures cmp(a, a) == 0
  {
  }

  lemma Transitive(cmp: Compare, a: int, b: int, c: int)
    requires TotalPreorder(cmp) && cmp(a, b) <= 0 && cmp(b, c) <= 0
    ensures cmp(a, c) <= 0
    ensures cmp(a, b) < 0 || cmp(b, c) < 0 ==> cmp(a, c) < 0
  {
    if cmp(a, c) >= 0 {
      Flip(cmp, a, c);
      Flip(cmp, a, b);
      Flip(cmp, b, c);
      assert cmp(c, a) <= 0;
    }
  }

  ghost predicate Ordered(s: seq<Node>, cmp: Compare, i: int, j: int)
    requires 0 <= i < |s| && 0 <= j < |s|
  {
    cmp(s[i].data, s[j].data) <= 0
  }

  ghost predicate Sorted(s: seq<Node>, cmp: Compare) {
    forall i, j {:trigger Ordered(s, cmp, i, j)} | 0 <= i < j < |s| :: Ordered(s, cmp, i, j)
  }

  lemma SortedTail(s: seq<Node>, cmp: Compare)
    requires Sorted(s, cmp) && s != []
    ensures Sorted(s[1..], cmp)
  {
    forall i, j {:trigger Ordered(s[1..], cmp, i, j)} | 0 <= i < j < |s[1..]|
      ensures Ordered(s[1..], cmp, i, j)
    {
      assert Ordered(s, cmp, i + 1, j + 1);
    }
  }

  lemma SortedCons(x: Node, s: seq<Node>, cmp: Compare)
    requires Sorted(s, cmp) && forall y | y in s :: cmp(x.data, y.data) <= 0
    ensures Sorted([x] + s, cmp)
  {
    var t := [x] + s;
    forall i, j {:trigger Ordered(t, cmp, i, j)} | 0 <= i < j < |t|
      ensures Ordered(t, cmp, i, j)
    {
      if i > 0 { assert Ordered(s, cmp, i - 1, j - 1); } else { assert t[j] in s; }
    }
  }

  /** The nodes that compare equal to a key, in their order. */
  ghost function Same(s: seq<Node>, key: int, cmp: Compare): seq<Node> {
    if s == [] then []
    else if cmp(key, s[0].data) == 0 then [s[0]] + Same(s[1..], key, cmp)
    else Same(s[1..], key, cmp)
  }

  /** r is s sorted, with equal nodes in their original order. */
  ghost predicate IsStableSort(s: seq<Node>, r: seq<Node>, cmp: Compare) {
    && multiset(r) == multiset(s)
    && Sorted(r, cmp)
    && forall key :: Same(r, key, cmp) == Same(s, key, cmp)
  }

  /** Stable merge: the first argument goes first among equals. */
  ghost function Merge(a: seq<Node>, b: seq<Node>, cmp: Compare): seq<Node>
    decreases |a| + |b|
  {
    if a == [] then b
    else if b == [] then a
    else if cmp(a[0].data, b[0].data) > 0 then [b[0]] + Merge(a, b[1..], cmp)
    else [a[0]] + Merge(a[1..], b, cmp)
  }

  lemma MergeUnfold(a: seq<Node>, b: seq<Node>, cmp: Compare)
    ensures a == [] ==> Merge(a, b, cmp) == b
    ensures b == [] ==> Merge(a, b, cmp) == a
    ensures a != [] && b != [] && cmp(a[0].data, b[0].data) > 0 ==> Merge(a, b, cmp) == [b[0]] + Merge(a, b[1..], cmp)
    ensures a != [] && b != [] && cmp(a[0].data, b[0].data) <= 0 ==> Merge(a, b, cmp) == [a[0]] + Merge(a[1..], b, cmp)
  {
  }

  lemma {:induction false} MergeMultiset(a: seq<Node>, b: seq<Node>, cmp: Compare)
    ensures multiset(Merge(a, b, cmp)) == multiset(a) + multiset(b)
    decreases |a| + |b|
  {
    if a != [] && b != [] {
      if cmp(a[0].data, b[0].data) > 0 {
        MergeMultiset(a, b[1..], cmp);
        assert b == [b[0]] + b[1..];
      } else {
        MergeMultiset(a[1..], b, cmp);
        assert a == [a[0]] + a[1..];
      }
    }
  }

  lemma FirstIsLeast(s: seq<Node>, x: Node, cmp: Compare)
    requires TotalPreorder(cmp) && Sorted(s, cmp) && x in s
    ensures cmp(s[0].data, x.data) <= 0
  {
    var i :| 0 <= i < |s| && s[i] == x;
    if i == 0 { Flip(cmp, x.data, x.data); } else { assert Ordered(s, cmp, 0, i); }
  }

  lemma MergeMembers(a: seq<Node>, b: seq<Node>, cmp: Compare, x: Node)
    ensures x in Merge(a, b, cmp) <==> x in a || x in b
  {
    MergeMultiset(a, b, cmp);
    assert x in Merge(a, b, cmp) <==> x in multiset(Merge(a, b, cmp));
    assert x in multiset(a) + multiset(b) <==> x in multiset(a) || x in multiset(b);
  }

  lemma {:induction false} MergeSorted(a: seq<Node>, b: seq<Node>, cmp: Compare)
    requires TotalPreorder(cmp) && Sorted(a, cmp) && Sorted(b, cmp)
    ensures Sorted(Merge(a, b, cmp), cmp)
    decreases |a| + |b|
  {
    hide TotalPreorder, Sorted;
    if a != [] && b != [] {
      Flip(cmp, a[0].data, b[0].data);
      if cmp(a[0].data, b[0].data) > 0 {
        SortedTail(b, cmp);
        MergeSorted(a, b[1..], cmp);
        LeastOfMerge(b[0], a, b, a, b[1..], cmp);
        SortedCons(b[0], Merge(a, b[1..], cmp), cmp);
      } else {
        SortedTail(a, cmp);
        MergeSorted(a[1..], b, cmp);
        LeastOfMerge(a[0], a, b, a[1..], b, cmp);
        SortedCons(a[0], Merge(a[1..], b, cmp), cmp);
      }
    }
  }

  lemma LeastOfMerge(x: Node, a: seq<Node>, b: seq<Node>, a': seq<Node>, b': seq<Node>, cmp: Compare)
    requires TotalPreorder(cmp) && Sorted(a, cmp) && Sorted(b, cmp) && a != [] && b != []
    requires cmp(x.data, a[0].data) <= 0 || x == a[0]
    requires cmp(x.data, b[0].data) <= 0 || x == b[0]
    requires (forall y | y in a' :: y in a) && (forall y | y in b' :: y in b)
    ensures forall y | y in Merge(a', b', cmp) :: cmp(x.data, y.data) <= 0
  {
    hide TotalPreorder, Sorted;
    forall y | y in Merge(a', b', cmp)
      ensures cmp(x.data, y.data) <= 0
    {
      MergeMembers(a', b', cmp, y);
      var s := if y in a' then a else b;
      FirstIsLeast(s, y, cmp);
      Flip(cmp, x.data, x.data);
      Transitive(cmp, x.data, s[0].data, y.data);
    }
  }

  lemma {:induction false} SameConcat(s: seq<Node>, t: seq<Node>, key: int, cmp: Compare)
    ensures Same(s + t, key, cmp) == Same(s, key, cmp) + Same(t, key, cmp)
  {
    if s == [] {
      assert s + t == t;
    } else {
      assert (s + t)[1..] == s[1..] + t;
      SameConcat(s[1..], t, key, cmp);
    }
  }

  lemma {:induction false} SameEmpty(s: seq<Node>, key: int, cmp: Compare)
    requires forall x | x in s :: cmp(key, x.data) != 0
    ensures Same(s, key, cmp) == []
  {
    if s != [] {
      SameEmpty(s[1..], key, cmp);
    }
  }

  /** Stability of the merge. */
  lemma {:induction false} MergeSame(a: seq<Node>, b: seq<Node>, key: int, cmp: Compare)
    requires TotalPreorder(cmp) && Sorted(a, cmp) && Sorted(b, cmp)
    ensures Same(Merge(a, b, cmp), key, cmp) == Same(a, key, cmp) + Same(b, key, cmp)
    decreases |a| + |b|
  {
    hide TotalPreorder, Sorted;
    if a != [] && b != [] {
      if cmp(a[0].data, b[0].data) > 0 {
        SortedTail(b, cmp);
        MergeSame(a, b[1..], key, cmp);
        SameCons(b[0], Merge(a, b[1..], cmp), key, cmp);
        if cmp(key, b[0].data) == 0 {
          NoneSameAbove(a, b[0].data, key, cmp);
        }
      } else {
        SortedTail(a, cmp);
        MergeSame(a[1..], b, key, cmp);
        SameCons(a[0], Merge(a[1..], b, cmp), key, cmp);
      }
    }
  }

  lemma SameCons(x: Node, s: seq<Node>, key: int, cmp: Compare)
    ensures Same([x] + s, key, cmp) == (if cmp(key, x.data) == 0 then [x] else []) + Same(s, key, cmp)
  {
    assert ([x] + s)[1..] == s;
  }

  lemma NoneSameAbove(a: seq<Node>, least: int, key: int, cmp: Compare)
    requires TotalPreorder(cmp) && Sorted(a, cmp) && a != []
    requires cmp(a[0].data, least) > 0 && cmp(key, least) == 0
    ensures Same(a, key, cmp) == []
  {
    hide TotalPreorder, Sorted;
    forall x | x in a
      ensures cmp(key, x.data) != 0
    {
      FirstIsLeast(a, x, cmp);
      Flip(cmp, a[0].data, least);
      Transitive(cmp, least, a[0].data, x.data);
      Transitive(cmp, key, least, x.data);
    }
    SameEmpty(a, key, cmp);
  }

  /** Merging stable sorts of two adjacent segments sorts their concatenation stably. */
  lemma MergeStable(s: seq<Node>, t: seq<Node>, a: seq<Node>, b: seq<Node>, cmp: Compare)
    requires TotalPreorder(cmp) && IsStableSort(s, a, cmp) && IsStableSort(t, b, cmp)
    ensures IsStableSort(s + t, Merge(a, b, cmp), cmp)
  {
    MergeMultiset(a, b, cmp);
    MergeSorted(a, b, cmp);
    forall key
      ensures Same(Merge(a, b, cmp), key, cmp) == Same(s + t, key, cmp)
    {
      MergeSame(a, b, key, cmp);
      SameConcat(s, t, key, cmp);
    }
  }

  /** The shortcuts of the degenerate merge agree with the merge. */
  lemma {:induction false} MergeAppends(a: seq<Node>, b: seq<Node>, cmp: Compare)
    requires TotalPreorder(cmp) && Sorted(a, cmp) && Sorted(b, cmp) && a != [] && b != []
    requires cmp(a[|a| - 1].data, b[0].data) <= 0
    ensures Merge(a, b, cmp) == a + b
  {
    hide TotalPreorder, Sorted;
    FirstIsLeast(a, a[|a| - 1], cmp);
    Transitive(cmp, a[0].data, a[|a| - 1].data, b[0].data);
    if |a| > 1 {
      SortedTail(a, cmp);
      MergeAppends(a[1..], b, cmp);
      assert a + b == [a[0]] + (a[1..] + b);
    }
  }

  lemma {:induction false} MergePrepends(a: seq<Node>, b: seq<Node>, cmp: Compare)
    requires TotalPreorder(cmp) && Sorted(a, cmp) && Sorted(b, cmp) && a != [] && b != []
    requires cmp(b[|b| - 1].data, a[0].data) < 0
    ensures Merge(a, b, cmp) == b + a
    decreases |b|
  {
    hide TotalPreorder, Sorted;
    FirstIsLeast(b, b[|b| - 1], cmp);
    Transitive(cmp, b[0].data, b[|b| - 1].data, a[0].data);
    Flip(cmp, a[0].data, b[0].data);
    if |b| > 1 {
      SortedTail(b, cmp);
      MergePrepends(a, b[1..], cmp);
      assert b + a == [b[0]] + (b[1..] + a);
    }
  }

  lemma {:induction false} SameMembers(s: seq<Node>, key: int, cmp: Compare)
    ensures forall x | x in Same(s, key, cmp) :: x in s
  {
    if s != [] {
      SameMembers(s[1..], key, cmp);
    }
  }

  /** A sorted sequence contains the least node of any sequence with the same runs of equals. */
  lemma HeadShared(r: seq<Node>, r': seq<Node>, cmp: Compare)
    requires TotalPreorder(cmp) && Sorted(r', cmp) && r != []
    requires Same(r, r[0].data, cmp) == Same(r', r[0].data, cmp)
    ensures Same(r, r[0].data, cmp) != [] && Same(r, r[0].data, cmp)[0] == r[0]
    ensures r' != [] && cmp(r'[0].data, r[0].data) <= 0
  {
    hide TotalPreorder, Sorted;
    Flip(cmp, r[0].data, r[0].data);
    assert Same(r, r[0].data, cmp)[0] == r[0];
    SameMembers(r', r[0].data, cmp);
    FirstIsLeast(r', r[0], cmp);
  }

  lemma TailsAgree(x: Node, t: seq<Node>, t': seq<Node>, key: int, cmp: Compare)
    requires Same([x] + t, key, cmp) == Same([x] + t', key, cmp)
    ensures Same(t, key, cmp) == Same(t', key, cmp)
  {
    SameCons(x, t, key, cmp);
    SameCons(x, t', key, cmp);
    var n := if cmp(key, x.data) == 0 then 1 else 0;
    assert Same([x] + t, key, cmp)[n..] == Same(t, key, cmp);
    assert Same([x] + t', key, cmp)[n..] == Same(t', key, cmp);
  }

  /** Order and stability determine the result, nodes included. */
  lemma {:induction false} StableSortUnique(r: seq<Node>, r': seq<Node>, cmp: Compare)
    requires TotalPreorder(cmp) && Sorted(r, cmp) && Sorted(r', cmp)
    requires forall key :: Same(r, key, cmp) == Same(r', key, cmp)
    ensures r == r'
  {
    hide TotalPreorder, Sorted;
    if r != [] { HeadShared(r, r', cmp); }
    if r' != [] { HeadShared(r', r, cmp); }
    if r != [] {
      hide Same;
      Flip(cmp, r[0].data, r'[0].data);
      SameHead(r, r', cmp);
      var x, t, t' := r[0], r[1..], r'[1..];
      assert r == [x] + t && r' == [x] + t';
      forall k
        ensures Same(t, k, cmp) == Same(t', k, cmp)
      {
        TailsAgree(x, t, t', k, cmp);
      }
      SortedTail(r, cmp);
      SortedTail(r', cmp);
      StableSortUnique(t, t', cmp);
    }
  }

  lemma SameHead(r: seq<Node>, r': seq<Node>, cmp: Compare)
    requires r != [] && r' != [] && cmp(r[0].data, r[0].data) == 0 && cmp(r[0].data, r'[0].data) == 0
    requires Same(r, r[0].data, cmp) == Same(r', r[0].data, cmp)
    ensures r[0] == r'[0]
  {
    assert Same(r, r[0].data, cmp)[0] == r[0];
    assert Same(r', r[0].data, cmp)[0] == r'[0];
  }
}
